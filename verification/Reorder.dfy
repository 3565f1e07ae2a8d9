/** The size and date reordering of the WebDAV listing. */
module Reorder {
  import opened Basics

  /** A listed file: `size` and `date` are the numbers parsed from its record. */
  datatype Row = Row(name: string, folder: bool, size: int, date: int)

  datatype Key = BySize | ByDate

  function KeyOf(key: Key, r: Row): int { if key == BySize then r.size else r.date }

  predicate Before(descending: bool, a: int, b: int) { if descending then a >= b else a <= b }

  ghost predicate NumbersSorted(s: seq<int>, descending: bool) {
    forall i, j :: 0 <= i < j < |s| ==> Before(descending, s[i], s[j])
  }

  /** `Array.sort` on numbers (a builtin): some sorted permutation. */
  function SortNumbers(s: seq<int>, descending: bool): (r: seq<int>)
    ensures |r| == |s|
  {
    if s == [] then [] else Insert(s[0], SortNumbers(s[1..], descending), descending)
  }

  function Insert(x: int, s: seq<int>, descending: bool): (r: seq<int>)
    ensures |r| == |s| + 1
  {
    if s == [] || Before(descending, x, s[0]) then [x] + s else [s[0]] + Insert(x, s[1..], descending)
  }

  lemma {:induction false} InsertKeeps(x: int, s: seq<int>, descending: bool)
    ensures multiset(Insert(x, s, descending)) == multiset(s) + multiset{x}
  {
    hide Before;
    if s != [] && !Before(descending, x, s[0]) {
      InsertKeeps(x, s[1..], descending);
      assert s == [s[0]] + s[1..];
    }
  }

  lemma {:induction false} InsertSorts(x: int, s: seq<int>, descending: bool)
    requires NumbersSorted(s, descending)
    ensures NumbersSorted(Insert(x, s, descending), descending)
  {
    if s != [] && !Before(descending, x, s[0]) {
      InsertSorts(x, s[1..], descending);
      var r := Insert(x, s[1..], descending);
      InsertKeeps(x, s[1..], descending);
      forall j | 0 <= j < |r|
        ensures Before(descending, s[0], r[j])
      {
        assert r[j] in multiset(s[1..]) + multiset{x} by { assert r[j] in multiset(r); }
      }
      SortedCons(s[0], r, descending);
    }
  }

  lemma SortedCons(x: int, r: seq<int>, descending: bool)
    requires NumbersSorted(r, descending) && forall j | 0 <= j < |r| :: Before(descending, x, r[j])
    ensures NumbersSorted([x] + r, descending)
  {
    hide Before;
  }

  lemma {:induction false} SortNumbersSorts(s: seq<int>, descending: bool)
    ensures NumbersSorted(SortNumbers(s, descending), descending)
    ensures multiset(SortNumbers(s, descending)) == multiset(s)
  {
    if s != [] {
      SortNumbersSorts(s[1..], descending);
      InsertSorts(s[0], SortNumbers(s[1..], descending), descending);
      InsertKeeps(s[0], SortNumbers(s[1..], descending), descending);
      assert s == [s[0]] + s[1..];
    }
  }

  // ---- What a reordering should be.

  /** The rows with key v, in order. */
  function WithKey(rows: seq<Row>, key: Key, v: int): seq<Row> {
    if rows == [] then [] else
    var last := rows[|rows| - 1];
    WithKey(rows[..|rows| - 1], key, v) + (if KeyOf(key, last) == v then [last] else [])
  }

  ghost predicate RowsSorted(rows: seq<Row>, key: Key, descending: bool) {
    forall i, j :: 0 <= i < j < |rows| ==> Before(descending, KeyOf(key, rows[i]), KeyOf(key, rows[j]))
  }

  /** Sorted, and rows with one key are exactly those of the listing, in listing order. */
  ghost predicate StableSort(out: seq<Row>, rows: seq<Row>, key: Key, descending: bool) {
    RowsSorted(out, key, descending) && SameKeyed(out, rows, key)
  }

  lemma {:induction false} WithKeyJoin(p: seq<Row>, q: seq<Row>, key: Key, v: int)
    ensures WithKey(p + q, key, v) == WithKey(p, key, v) + WithKey(q, key, v)
    decreases |q|
  {
    if q == [] {
      assert p + q == p;
    } else {
      assert (p + q)[..|p + q| - 1] == p + q[..|q| - 1];
      WithKeyJoin(p, q[..|q| - 1], key, v);
    }
  }

  lemma WithKeyOne(r: Row, key: Key, v: int)
    ensures WithKey([r], key, v) == if KeyOf(key, r) == v then [r] else []
  {
    assert WithKey([r][..0], key, v) == [];
  }

  lemma {:induction false} WithKeyCounts(rows: seq<Row>, key: Key, r: Row)
    ensures multiset(WithKey(rows, key, KeyOf(key, r)))[r] == multiset(rows)[r]
  {
    if rows != [] {
      var front, last := rows[..|rows| - 1], rows[|rows| - 1];
      WithKeyCounts(front, key, r);
      assert rows == front + [last];
      assert WithKey(rows, key, KeyOf(key, r))
          == WithKey(front, key, KeyOf(key, r)) + (if KeyOf(key, last) == KeyOf(key, r) then [last] else []);
      hide WithKey, KeyOf;
    }
  }

  lemma StableSortPermutes(out: seq<Row>, rows: seq<Row>, key: Key, descending: bool)
    requires StableSort(out, rows, key, descending)
    ensures multiset(out) == multiset(rows)
  {
    forall r: Row
      ensures multiset(out)[r] == multiset(rows)[r]
    {
      WithKeyCounts(out, key, r);
      WithKeyCounts(rows, key, r);
      assert WithKey(out, key, KeyOf(key, r)) == WithKey(rows, key, KeyOf(key, r));
    }
  }

  /** The same rows of every key, in the same order. */
  ghost predicate SameKeyed(p: seq<Row>, q: seq<Row>, key: Key) {
    forall v :: WithKey(p, key, v) == WithKey(q, key, v)
  }

  lemma SameKeyedAt(p: seq<Row>, q: seq<Row>, key: Key, v: int)
    requires SameKeyed(p, q, key)
    ensures WithKey(p, key, v) == WithKey(q, key, v)
  {
    hide WithKey;
  }

  /** There is only one stable sort of a listing. */
  lemma {:induction false} StableSortUnique(p: seq<Row>, q: seq<Row>, key: Key, descending: bool)
    requires RowsSorted(p, key, descending) && RowsSorted(q, key, descending)
    requires SameKeyed(p, q, key)
    ensures p == q
    decreases |p|
  {
    if p == [] {
      if q != [] {
        LastOfKey(q, key);
        SameKeyedAt(p, q, key, KeyOf(key, q[|q| - 1]));
      }
    } else {
      SameLast(p, q, key, descending);
      hide WithKey;
      var p', q' := p[..|p| - 1], q[..|q| - 1];
      forall u
        ensures WithKey(p', key, u) == WithKey(q', key, u)
      {
        SameKeyedAt(p, q, key, u);
        WithKeyFront(p, key, u);
        WithKeyFront(q, key, u);
      }
      StableSortUnique(p', q', key, descending);
      assert p == p' + [p[|p| - 1]] && q == q' + [q[|q| - 1]];
    }
  }

  lemma SameLast(p: seq<Row>, q: seq<Row>, key: Key, descending: bool)
    requires RowsSorted(p, key, descending) && RowsSorted(q, key, descending) && p != []
    requires SameKeyed(p, q, key)
    ensures q != [] && p[|p| - 1] == q[|q| - 1]
  {
    hide *;
    var v := KeyOf(key, p[|p| - 1]);
    SameKeyedAt(p, q, key, v);
    LastReaches(p, q, key, descending);
    var w := KeyOf(key, q[|q| - 1]);
    SameKeyedAt(p, q, key, w);
    LastReaches(q, p, key, descending);
    BeforeBoth(descending, v, w);
    LastOfKey(p, key);
    LastOfKey(q, key);
  }

  /** The last key of p occurs in q, so q's last key is no earlier. */
  lemma LastReaches(p: seq<Row>, q: seq<Row>, key: Key, descending: bool)
    requires RowsSorted(q, key, descending) && p != []
    requires var v := KeyOf(key, p[|p| - 1]); WithKey(p, key, v) == WithKey(q, key, v)
    ensures q != [] && Before(descending, KeyOf(key, p[|p| - 1]), KeyOf(key, q[|q| - 1]))
  {
    hide *;
    LastOfKey(p, key);
    var i := KeyOccurs(q, key, KeyOf(key, p[|p| - 1]));
    LastIsExtreme(q, i, key, descending);
  }

  lemma BeforeBoth(descending: bool, v: int, w: int)
    requires Before(descending, v, w) && Before(descending, w, v)
    ensures v == w
  {
  }

  lemma LastIsExtreme(p: seq<Row>, i: nat, key: Key, descending: bool)
    requires RowsSorted(p, key, descending) && i < |p|
    ensures Before(descending, KeyOf(key, p[i]), KeyOf(key, p[|p| - 1]))
  {
    hide KeyOf;
  }

  lemma LastOfKey(p: seq<Row>, key: Key)
    requires p != []
    ensures var s := WithKey(p, key, KeyOf(key, p[|p| - 1])); s != [] && s[|s| - 1] == p[|p| - 1]
  {
  }

  lemma WithKeyFront(p: seq<Row>, key: Key, u: int)
    requires p != []
    ensures u == KeyOf(key, p[|p| - 1]) ==>
      WithKey(p, key, u) != [] && WithKey(p[..|p| - 1], key, u) == WithKey(p, key, u)[..|WithKey(p, key, u)| - 1]
    ensures u != KeyOf(key, p[|p| - 1]) ==> WithKey(p[..|p| - 1], key, u) == WithKey(p, key, u)
  {
  }

  lemma {:induction false} KeyOccurs(p: seq<Row>, key: Key, v: int) returns (i: nat)
    requires WithKey(p, key, v) != []
    ensures i < |p| && KeyOf(key, p[i]) == v
  {
    if KeyOf(key, p[|p| - 1]) == v {
      i := |p| - 1;
    } else {
      i := KeyOccurs(p[..|p| - 1], key, v);
    }
  }

  // ---- The same on the fields themselves.

  /** The rows of one size, in order. */
  function OfSize(rows: seq<Row>, v: int): seq<Row> {
    if rows == [] then []
    else OfSize(rows[..|rows| - 1], v) + (if rows[|rows| - 1].size == v then [rows[|rows| - 1]] else [])
  }

  /** The rows of one date, in order. */
  function OfDate(rows: seq<Row>, v: int): seq<Row> {
    if rows == [] then []
    else OfDate(rows[..|rows| - 1], v) + (if rows[|rows| - 1].date == v then [rows[|rows| - 1]] else [])
  }

  /** Largest first when descending, smallest first otherwise, and equal sizes in the order of the listing. */
  ghost predicate InSizeOrder(out: seq<Row>, rows: seq<Row>, descending: bool) {
    && (forall i, j :: 0 <= i < j < |out| ==>
      if descending then out[i].size >= out[j].size else out[i].size <= out[j].size)
    && forall v :: OfSize(out, v) == OfSize(rows, v)
  }

  /** Latest first when descending, earliest first otherwise, and equal dates in the order of the listing. */
  ghost predicate InDateOrder(out: seq<Row>, rows: seq<Row>, descending: bool) {
    && (forall i, j :: 0 <= i < j < |out| ==>
      if descending then out[i].date >= out[j].date else out[i].date <= out[j].date)
    && forall v :: OfDate(out, v) == OfDate(rows, v)
  }

  lemma {:induction false} OfFieldIs(rows: seq<Row>, v: int)
    ensures OfSize(rows, v) == WithKey(rows, BySize, v) && OfDate(rows, v) == WithKey(rows, ByDate, v)
  {
    if rows != [] {
      OfFieldIs(rows[..|rows| - 1], v);
    }
  }

  lemma InOrder(out: seq<Row>, rows: seq<Row>, descending: bool)
    ensures StableSort(out, rows, BySize, descending) ==> InSizeOrder(out, rows, descending)
    ensures StableSort(out, rows, ByDate, descending) ==> InDateOrder(out, rows, descending)
  {
    hide WithKey, OfSize, OfDate;
    forall v
      ensures OfSize(out, v) == WithKey(out, BySize, v) && OfSize(rows, v) == WithKey(rows, BySize, v)
      ensures OfDate(out, v) == WithKey(out, ByDate, v) && OfDate(rows, v) == WithKey(rows, ByDate, v)
    {
      OfFieldIs(out, v);
      OfFieldIs(rows, v);
    }
  }

  // ---- The rendering loops.

  class Listing {
    var rows: seq<Row>
    var rendered: seq<Row>
    var sizeOrderFlag: bool
    var fileDateOrderFlag: bool

    /** Each pass of the outer loop renders all rows with the current key at once. */
    method RenderBySize(files: seq<Row>, descending: bool)
      modifies this`rendered
      ensures exists out: seq<Row> ::
        && StableSort(out, files, BySize, descending) && InSizeOrder(out, files, descending)
        && rendered == old(rendered) + out
    {
      hide *;
      var sizes := seq(|files|, i requires 0 <= i < |files| => KeyOf(BySize, files[i]));
      var sorted := SortNumbers(sizes, descending);
      SortNumbersSorts(sizes, descending);
      var entries := seq(|files|, i requires 0 <= i < |files| => Some(files[i]));
      ghost var out: seq<Row> := [];
      EmptyCover(files, entries, sorted, BySize, descending);
      var k := 0;
      while k < |files|
        invariant 0 <= k <= |files| == |sorted| && rendered == old(rendered) + out
        invariant Covered(out, files, BySize, sorted[..k], descending)
        invariant Blanked(entries, files, BySize, sorted[..k], 0, 0)
      {
        ghost var before := out;
        BlankedLength(entries, files, BySize, sorted[..k], 0, 0);
        StartPass(entries, files, BySize, sorted[..k], sorted[k]);
        var m := 0;
        while m < |files|
          invariant 0 <= m <= |files| == |entries| && rendered == old(rendered) + out
          invariant out == before + Fresh(files[..m], BySize, sorted[..k], sorted[k])
          invariant Blanked(entries, files, BySize, sorted[..k], m, sorted[k])
        {
          MatchEntry(entries, files, BySize, sorted[..k], m, sorted[k]);
          if entries[m].Some? && sorted[k] == KeyOf(BySize, entries[m].value) {
            rendered := rendered + [entries[m].value];
            out := out + [entries[m].value];
            entries := entries[m := None];
          }
          m := m + 1;
        }
        assert files[..m] == files && sorted[..k + 1] == sorted[..k] + [sorted[k]];
        EndPass(before, entries, files, sorted, k, BySize, descending);
        k := k + 1;
      }
      assert sorted[..k] == sorted;
      Finished(out, files, sorted, BySize, descending);
      InOrder(out, files, descending);
    }

    /** Each pass of the outer loop renders one row, the first not yet blanked with the current key. */
    method RenderByDate(descending: bool)
      modifies this`rendered
      ensures StableSort(rendered, rows, ByDate, descending) && InDateOrder(rendered, rows, descending)
    {
      hide *;
      rendered := [];
      var files := rows;
      var dates := Keys(files, ByDate);
      var sorted := SortNumbers(dates, descending);
      SortNumbersSorts(dates, descending);
      KeysLength(files, ByDate);
      var entries := seq(|files|, i requires 0 <= i < |files| => Some(files[i]));
      NothingTaken(files, entries, sorted, ByDate, descending);
      var k := 0;
      while k < |rows|
        invariant 0 <= k <= |rows| == |sorted| && rows == files
        invariant Taken(rendered, entries, rows, ByDate, sorted, k, descending)
      {
        HasMatch(rendered, entries, rows, ByDate, sorted, k, descending);
        var m := 0;
        while m < |rows|
          invariant 0 <= m <= |rows| == |entries|
          invariant forall j :: 0 <= j < m ==> !Matches(entries[j], ByDate, sorted[k])
          invariant Taken(rendered, entries, rows, ByDate, sorted, k, descending)
        {
          MatchesIs(entries[m], ByDate, sorted[k]);
          if entries[m] == None {
          } else {
            if sorted[k] == KeyOf(ByDate, entries[m].value) {
              break;
            }
          }
          m := m + 1;
        }
        MatchesIs(entries[m], ByDate, sorted[k]);
        TakeOne(rendered, entries, rows, ByDate, sorted, k, descending, m);
        rendered := rendered + [entries[m].value];
        entries := entries[m := None];
        k := k + 1;
      }
      AllTaken(rendered, entries, rows, ByDate, sorted, descending);
      InOrder(rendered, rows, descending);
    }

    /** Folders go first when the order is descending and last otherwise. */
    method SizeOrderOnClick()
      modifies this
      ensures sizeOrderFlag == !old(sizeOrderFlag) && rows == old(rows)
      ensures exists out: seq<Row> ::
        && StableSort(out, Files(rows), BySize, sizeOrderFlag) && InSizeOrder(out, Files(rows), sizeOrderFlag)
        && rendered == if sizeOrderFlag then Folders(rows) + out else out + Folders(rows)
    {
      hide StableSort, InSizeOrder;
      sizeOrderFlag := !sizeOrderFlag;
      var folders: seq<Row>, files: seq<Row> := [], [];
      for i := 0 to |rows|
        invariant folders == Folders(rows[..i]) && files == Files(rows[..i]) && rows == old(rows)
        invariant sizeOrderFlag == !old(sizeOrderFlag)
      {
        assert rows[..i + 1][..i] == rows[..i];
        if rows[i].folder {
          folders := folders + [rows[i]];
        } else {
          files := files + [rows[i]];
        }
      }
      assert rows[..|rows|] == rows;
      rendered := [];
      if sizeOrderFlag {
        rendered := folders;
        RenderBySize(files, true);
      } else {
        RenderBySize(files, false);
        ghost var out :|
          StableSort(out, files, BySize, false) && InSizeOrder(out, files, false) && rendered == [] + out;
        rendered := rendered + folders;
        assert rendered == out + folders;
      }
    }

    method FileDateOrderOnClick()
      modifies this
      ensures fileDateOrderFlag == !old(fileDateOrderFlag) && rows == old(rows)
      ensures StableSort(rendered, rows, ByDate, fileDateOrderFlag) && InDateOrder(rendered, rows, fileDateOrderFlag)
    {
      fileDateOrderFlag := !fileDateOrderFlag;
      RenderByDate(fileDateOrderFlag);
    }
  }

  function Folders(rows: seq<Row>): seq<Row> {
    if rows == [] then [] else
    var last := rows[|rows| - 1];
    Folders(rows[..|rows| - 1]) + (if last.folder then [last] else [])
  }

  function Files(rows: seq<Row>): seq<Row> {
    if rows == [] then [] else
    var last := rows[|rows| - 1];
    Files(rows[..|rows| - 1]) + (if last.folder then [] else [last])
  }

  lemma {:induction false} GroupsPermute(rows: seq<Row>)
    ensures multiset(Folders(rows)) + multiset(Files(rows)) == multiset(rows)
    ensures (forall r <- Folders(rows) :: r.folder) && (forall r <- Files(rows) :: !r.folder)
  {
    if rows != [] {
      GroupsPermute(rows[..|rows| - 1]);
      assert rows == rows[..|rows| - 1] + [rows[|rows| - 1]];
    }
  }

  /** Both groups keep the order of the listing. */
  lemma {:induction false} GroupsInOrder(p: seq<Row>, q: seq<Row>)
    ensures Folders(p + q) == Folders(p) + Folders(q) && Files(p + q) == Files(p) + Files(q)
    decreases |q|
  {
    hide Folders, Files;
    if q == [] {
      assert p + q == p;
      NoGroups();
    } else {
      var front, last := q[..|q| - 1], q[|q| - 1];
      var f, g := if last.folder then [last] else [], if last.folder then [] else [last];
      GroupsInOrder(p, front);
      assert (p + q)[..|p + q| - 1] == p + front;
      LastGroup(p + q);
      LastGroup(q);
      Assoc(Folders(p), Folders(front), f);
      Assoc(Files(p), Files(front), g);
    }
  }

  lemma NoGroups()
    ensures Folders([]) == [] == Files([])
  {
  }

  lemma LastGroup(rows: seq<Row>)
    requires rows != []
    ensures var front, last := rows[..|rows| - 1], rows[|rows| - 1];
      && Folders(rows) == Folders(front) + (if last.folder then [last] else [])
      && Files(rows) == Files(front) + (if last.folder then [] else [last])
  {
  }

  /** A click on size renders a permutation of the listing, the folders in front or behind. */
  lemma SizeOrderPermutes(rows: seq<Row>, out: seq<Row>, descending: bool)
    requires StableSort(out, Files(rows), BySize, descending)
    ensures multiset(Folders(rows) + out) == multiset(rows) == multiset(out + Folders(rows))
  {
    StableSortPermutes(out, Files(rows), BySize, descending);
    GroupsPermute(rows);
  }

  // ---- Invariants of the size loop.

  /** The rendering so far: exactly the rows whose key is among the numbers visited. */
  ghost predicate Covered(out: seq<Row>, files: seq<Row>, key: Key, keys: seq<int>, descending: bool) {
    && RowsSorted(out, key, descending) && KeysIn(out, key, keys)
    && forall v :: WithKey(out, key, v) == if v in keys then WithKey(files, key, v) else []
  }

  /** Blank entries: rows with a visited key, and below m those with key v. */
  ghost predicate Blanked(entries: seq<Option<Row>>, files: seq<Row>, key: Key, keys: seq<int>, m: nat, v: int) {
    && |entries| == |files|
    && forall j :: 0 <= j < |files| ==>
      entries[j] ==
        if KeyOf(key, files[j]) in keys || (j < m && KeyOf(key, files[j]) == v) then None else Some(files[j])
  }

  /** What a pass for v has rendered: nothing when v was visited before. */
  function Fresh(rows: seq<Row>, key: Key, keys: seq<int>, v: int): seq<Row> {
    if v in keys then [] else WithKey(rows, key, v)
  }

  lemma EmptyCover(files: seq<Row>, entries: seq<Option<Row>>, sorted: seq<int>, key: Key, descending: bool)
    requires entries == seq(|files|, i requires 0 <= i < |files| => Some(files[i]))
    ensures Covered([], files, key, sorted[..0], descending) && Blanked(entries, files, key, sorted[..0], 0, 0)
  {
  }

  lemma BlankedLength(entries: seq<Option<Row>>, files: seq<Row>, key: Key, keys: seq<int>, m: nat, v: int)
    requires Blanked(entries, files, key, keys, m, v)
    ensures |entries| == |files|
  {
  }

  lemma StartPass(entries: seq<Option<Row>>, files: seq<Row>, key: Key, keys: seq<int>, v: int)
    requires Blanked(entries, files, key, keys, 0, 0)
    ensures Blanked(entries, files, key, keys, 0, v) && Fresh(files[..0], key, keys, v) == []
  {
  }

  lemma MatchEntry(entries: seq<Option<Row>>, files: seq<Row>, key: Key, keys: seq<int>, m: nat, v: int)
    requires m < |files| && Blanked(entries, files, key, keys, m, v)
    ensures |entries| == |files|
    ensures if entries[m].Some? && v == KeyOf(key, entries[m].value)
      then && Fresh(files[..m + 1], key, keys, v) == Fresh(files[..m], key, keys, v) + [entries[m].value]
           && Blanked(entries[m := None], files, key, keys, m + 1, v)
      else && Fresh(files[..m + 1], key, keys, v) == Fresh(files[..m], key, keys, v)
           && Blanked(entries, files, key, keys, m + 1, v)
  {
    hide KeyOf, WithKey;
    WithKeyNext(files, m, key, v);
  }

  lemma EndPass(before: seq<Row>, entries: seq<Option<Row>>, files: seq<Row>, sorted: seq<int>, k: nat,
        key: Key, descending: bool)
    requires k < |sorted| && NumbersSorted(sorted, descending)
    requires Covered(before, files, key, sorted[..k], descending)
    requires Blanked(entries, files, key, sorted[..k], |files|, sorted[k])
    ensures Covered(before + Fresh(files, key, sorted[..k], sorted[k]), files, key, sorted[..k + 1], descending)
    ensures Blanked(entries, files, key, sorted[..k + 1], 0, 0)
  {
    hide KeyOf, WithKey, RowsSorted, KeysIn, NumbersSorted;
    var keys, v := sorted[..k], sorted[k];
    var add := Fresh(files, key, keys, v);
    assert sorted[..k + 1] == keys + [v];
    AllWithKey(files, key, v);
    AppendSorted(before, add, key, descending, sorted, k);
    forall u
      ensures WithKey(before + add, key, u) == if u in sorted[..k + 1] then WithKey(files, key, u) else []
    {
      WithKeyJoin(before, add, key, u);
      WithKeyTwice(files, key, v, u);
      WithKeyNone(key, u);
    }
  }

  lemma {:induction false} WithKeyTwice(rows: seq<Row>, key: Key, v: int, u: int)
    ensures WithKey(WithKey(rows, key, v), key, u) == if u == v then WithKey(rows, key, v) else []
  {
    if rows != [] {
      var front, last := rows[..|rows| - 1], rows[|rows| - 1];
      WithKeyTwice(front, key, v, u);
      if KeyOf(key, last) == v {
        WithKeyJoin(WithKey(front, key, v), [last], key, u);
        WithKeyOne(last, key, u);
      } else {
        assert WithKey(rows, key, v) == WithKey(front, key, v);
      }
    }
  }

  lemma WithKeyNone(key: Key, v: int)
    ensures WithKey([], key, v) == []
  {
  }

  lemma Finished(out: seq<Row>, rows: seq<Row>, sorted: seq<int>, key: Key, descending: bool)
    requires multiset(sorted) == multiset(seq(|rows|, i requires 0 <= i < |rows| => KeyOf(key, rows[i])))
    requires Covered(out, rows, key, sorted, descending)
    ensures StableSort(out, rows, key, descending)
  {
    hide WithKey, KeyOf, RowsSorted;
    var keys := seq(|rows|, i requires 0 <= i < |rows| => KeyOf(key, rows[i]));
    forall v
      ensures WithKey(out, key, v) == WithKey(rows, key, v)
    {
      if WithKey(rows, key, v) != [] {
        var i := KeyOccurs(rows, key, v);
        assert keys[i] in multiset(keys);
      }
    }
  }

  // ---- Invariants of the date loop.

  function Keys(rows: seq<Row>, key: Key): (r: seq<int>) {
    seq(|rows|, i requires 0 <= i < |rows| => KeyOf(key, rows[i]))
  }

  lemma KeysLength(rows: seq<Row>, key: Key)
    ensures |Keys(rows, key)| == |rows|
  {
  }

  /** The rows whose entries are not blank. */
  function Live(entries: seq<Option<Row>>): seq<Row> {
    if entries == [] then [] else
    var last := entries[|entries| - 1];
    Live(entries[..|entries| - 1]) + (if last.Some? then [last.value] else [])
  }

  predicate Matches(entry: Option<Row>, key: Key, v: int) { entry.Some? && KeyOf(key, entry.value) == v }

  lemma MatchesIs(entry: Option<Row>, key: Key, v: int)
    ensures Matches(entry, key, v) <==> entry.Some? && KeyOf(key, entry.value) == v
  {
  }

  /** k rows are out; they and the live entries make up the listing, key by key. */
  ghost predicate Taken(out: seq<Row>, entries: seq<Option<Row>>, files: seq<Row>, key: Key, sorted: seq<int>,
        k: nat, descending: bool) {
    && k <= |sorted| == |entries| == |files|
    && RowsSorted(out, key, descending) && KeysIn(out, key, sorted[..k])
    && multiset(Keys(Live(entries), key)) == multiset(sorted[k..])
    && forall v :: WithKey(out, key, v) + WithKey(Live(entries), key, v) == WithKey(files, key, v)
  }

  lemma {:induction false} LiveAll(files: seq<Row>, entries: seq<Option<Row>>)
    requires |entries| == |files| && forall i :: 0 <= i < |files| ==> entries[i] == Some(files[i])
    ensures Live(entries) == files
  {
    if files != [] {
      LiveAll(files[..|files| - 1], entries[..|files| - 1]);
    }
  }

  lemma NothingTaken(files: seq<Row>, entries: seq<Option<Row>>, sorted: seq<int>, key: Key, descending: bool)
    requires entries == seq(|files|, i requires 0 <= i < |files| => Some(files[i]))
    requires |sorted| == |files| && multiset(sorted) == multiset(Keys(files, key))
    ensures Taken([], entries, files, key, sorted, 0, descending)
  {
    hide Keys;
    LiveAll(files, entries);
    assert sorted[0..] == sorted;
    forall v
      ensures WithKey([], key, v) + WithKey(files, key, v) == WithKey(files, key, v)
    {
      WithKeyNone(key, v);
    }
  }

  lemma {:induction false} LiveFound(entries: seq<Option<Row>>, r: Row) returns (m: nat)
    requires r in Live(entries)
    ensures m < |entries| && entries[m] == Some(r)
  {
    if entries[|entries| - 1] == Some(r) {
      m := |entries| - 1;
    } else {
      m := LiveFound(entries[..|entries| - 1], r);
    }
  }

  lemma HasMatch(out: seq<Row>, entries: seq<Option<Row>>, files: seq<Row>, key: Key, sorted: seq<int>, k: nat,
        descending: bool)
    requires k < |sorted| && Taken(out, entries, files, key, sorted, k, descending)
    ensures |entries| == |files| && exists m :: 0 <= m < |entries| && Matches(entries[m], key, sorted[k])
  {
    hide WithKey, RowsSorted, KeysIn;
    var live := Live(entries);
    assert sorted[k..][0] == sorted[k];
    assert sorted[k] in multiset(Keys(live, key));
    var i :| 0 <= i < |live| && Keys(live, key)[i] == sorted[k];
    var m := LiveFound(entries, live[i]);
    assert Matches(entries[m], key, sorted[k]);
  }

  /** Blanking the first match takes one row out of the live ones. */
  lemma {:induction false} LiveSplit(entries: seq<Option<Row>>, m: nat, key: Key, v: int)
    returns (p: seq<Row>, q: seq<Row>)
    requires m < |entries| && Matches(entries[m], key, v) && forall j :: 0 <= j < m ==> !Matches(entries[j], key, v)
    ensures Live(entries) == p + [entries[m].value] + q && Live(entries[m := None]) == p + q
    ensures WithKey(p, key, v) == []
    decreases |entries|
  {
    var n := |entries| - 1;
    if m == n {
      p, q := Live(entries[..n]), [];
      NoMatchNoKey(entries[..n], key, v);
      assert entries[m := None][..n] == entries[..n];
    } else {
      var q0;
      p, q0 := LiveSplit(entries[..n], m, key, v);
      assert entries[m := None][..n] == entries[..n][m := None];
      q := q0 + (if entries[n].Some? then [entries[n].value] else []);
    }
  }

  lemma {:induction false} NoMatchNoKey(entries: seq<Option<Row>>, key: Key, v: int)
    requires forall j :: 0 <= j < |entries| ==> !Matches(entries[j], key, v)
    ensures WithKey(Live(entries), key, v) == []
  {
    if entries != [] {
      var front, last := entries[..|entries| - 1], entries[|entries| - 1];
      NoMatchNoKey(front, key, v);
      assert !Matches(last, key, v);
      WithKeyNone(key, v);
      if last.Some? {
        WithKeyJoin(Live(front), [last.value], key, v);
        WithKeyOne(last.value, key, v);
        assert Live(entries) == Live(front) + [last.value];
      } else {
        assert Live(entries) == Live(front);
      }
    }
  }

  lemma TakeOne(out: seq<Row>, entries: seq<Option<Row>>, files: seq<Row>, key: Key, sorted: seq<int>, k: nat,
        descending: bool, m: nat)
    requires NumbersSorted(sorted, descending) && k < |sorted| && m < |entries|
    requires Taken(out, entries, files, key, sorted, k, descending)
    requires Matches(entries[m], key, sorted[k]) && forall j :: 0 <= j < m ==> !Matches(entries[j], key, sorted[k])
    ensures Taken(out + [entries[m].value], entries[m := None], files, key, sorted, k + 1, descending)
  {
    hide WithKey, RowsSorted, KeysIn, NumbersSorted, Live, KeyOf, Keys;
    var v, r := sorted[k], entries[m].value;
    var p, q := LiveSplit(entries, m, key, v);
    AppendSorted(out, [r], key, descending, sorted, k);
    KeysTake(p, r, q, key);
    assert sorted[k..] == [v] + sorted[k + 1..];
    assert multiset(sorted[k..]) == multiset{v} + multiset(sorted[k + 1..]);
    assert Live(entries[m := None]) == p + q && Live(entries) == p + [r] + q;
    Cancel(multiset(Keys(p + q, key)), multiset(sorted[k + 1..]), v);
    forall u
      ensures WithKey(out + [r], key, u) + WithKey(p + q, key, u) == WithKey(files, key, u)
    {
      WithKeyJoin(out, [r], key, u);
      WithKeyJoin(p + [r], q, key, u);
      WithKeyJoin(p, [r], key, u);
      WithKeyJoin(p, q, key, u);
      WithKeyOne(r, key, u);
      assert WithKey(out, key, u) + WithKey(Live(entries), key, u) == WithKey(files, key, u);
    }
  }

  lemma Cancel(a: multiset<int>, b: multiset<int>, x: int)
    requires a + multiset{x} == multiset{x} + b
    ensures a == b
  {
    assert a == (a + multiset{x}) - multiset{x} && b == (multiset{x} + b) - multiset{x};
  }

  lemma KeysTake(p: seq<Row>, r: Row, q: seq<Row>, key: Key)
    ensures multiset(Keys(p + [r] + q, key)) == multiset(Keys(p + q, key)) + multiset{KeyOf(key, r)}
  {
    assert Keys(p + [r] + q, key) == Keys(p, key) + [KeyOf(key, r)] + Keys(q, key);
    assert Keys(p + q, key) == Keys(p, key) + Keys(q, key);
  }

  lemma AllTaken(out: seq<Row>, entries: seq<Option<Row>>, files: seq<Row>, key: Key, sorted: seq<int>,
        descending: bool)
    requires Taken(out, entries, files, key, sorted, |sorted|, descending)
    ensures StableSort(out, files, key, descending)
  {
    hide WithKey, RowsSorted, KeysIn;
    assert |multiset(Keys(Live(entries), key))| == |Keys(Live(entries), key)|;
    assert Live(entries) == [];
    forall v
      ensures WithKey(out, key, v) == WithKey(files, key, v)
    {
      WithKeyNone(key, v);
      assert WithKey(out, key, v) + WithKey(Live(entries), key, v) == WithKey(files, key, v);
    }
  }

  ghost predicate KeysIn(out: seq<Row>, key: Key, keys: seq<int>) {
    forall i :: 0 <= i < |out| ==> KeyOf(key, out[i]) in keys
  }

  lemma {:induction false} AllWithKey(rows: seq<Row>, key: Key, v: int)
    ensures forall i :: 0 <= i < |WithKey(rows, key, v)| ==> KeyOf(key, WithKey(rows, key, v)[i]) == v
  {
    if rows != [] {
      AllWithKey(rows[..|rows| - 1], key, v);
    }
  }

  /** Rows with the next key keep a rendering sorted. */
  lemma AppendSorted(out: seq<Row>, add: seq<Row>, key: Key, descending: bool, sorted: seq<int>, k: nat)
    requires k < |sorted| && NumbersSorted(sorted, descending)
    requires RowsSorted(out, key, descending) && KeysIn(out, key, sorted[..k])
    requires forall i :: 0 <= i < |add| ==> KeyOf(key, add[i]) == sorted[k]
    ensures RowsSorted(out + add, key, descending) && KeysIn(out + add, key, sorted[..k + 1])
  {
    hide KeyOf;
    assert sorted[..k + 1] == sorted[..k] + [sorted[k]];
    forall i | 0 <= i < |out|
      ensures Before(descending, KeyOf(key, out[i]), sorted[k])
    {
      var j :| 0 <= j < k && sorted[..k][j] == KeyOf(key, out[i]);
      assert sorted[j] == KeyOf(key, out[i]);
    }
  }

  lemma WithKeyNext(rows: seq<Row>, m: nat, key: Key, v: int)
    requires m < |rows|
    ensures WithKey(rows[..m + 1], key, v)
        == WithKey(rows[..m], key, v) + (if KeyOf(key, rows[m]) == v then [rows[m]] else [])
  {
    assert rows[..m + 1][..m] == rows[..m];
  }
}
