/** Filtering and paging of table rows in all.js. */
module Paging {
  import opened Basics
  import opened JsWord

  /** A column filter: a non-empty text to equal, a test (regular expression or function), or nothing. */
  datatype Filter = Equals(text: string) | Test(test: string -> bool) | Blank

  /** By column; a filter given without a column outside any cell has none and never applies. */
  type Filters = map<Option<nat>, Filter>

  type Row = seq<string>

  predicate Accepts(f: Filter, cell: string) {
    match f
    case Equals(text) => cell == text
    case Test(test) => test(cell)
    case Blank => true
  }

  /** Filters on columns that a row does not have are ignored. */
  predicate Passes(filters: Option<Filters>, row: Row) {
    filters.Some? ==> forall col | col in filters.value ::
      col.Some? && col.value < |row| ==> Accepts(filters.value[col], row[col.value])
  }

  /** How many of the first n rows pass: the rank of row n among the filtered rows. */
  function Rank(filters: Option<Filters>, rows: seq<Row>, n: nat): (r: nat)
    requires n <= |rows|
    ensures r <= n
  {
    if n == 0 then 0 else Rank(filters, rows, n - 1) + (if Passes(filters, rows[n - 1]) then 1 else 0)
  }

  function Count(filters: Option<Filters>, rows: seq<Row>): nat { Rank(filters, rows, |rows|) }

  // ---- Page numbers.

  function PageSize(n: nat): (r: nat)
    ensures r >= 1
  {
    if n == 0 then 25 else n
  }

  function AtLeastZero(p: int): nat { if p < 0 then 0 else p }

  /** The page that scrape stores for a requested page q. */
  function StoredPage(q: nat, size: nat, count: nat): nat
    requires size >= 1
  {
    if q * size + 1 >= count then count / size else q
  }

  predicate InPage(page: nat, size: nat, rank: nat) { page * size <= rank < (page + 1) * size }

  /** What scrape leaves visible: page q, and on an overrun everything from the stored page on. */
  predicate Visible(q: nat, size: nat, count: nat, rank: nat)
    requires size >= 1
  {
    InPage(q, size, rank) || (q * size + 1 >= count && rank >= count / size * size)
  }

  datatype Table = Table(filters: Option<Filters>, page: Option<int>, pagesize: nat, shown: seq<bool>)

  /** Which filtered rows are visible, by rank: all, or those of one scrape for page q. */
  datatype Window = AllRows | PageWindow(q: nat, size: nat, count: nat)

  predicate VisibleIn(w: Window, rank: nat) {
    match w
    case AllRows => true
    case PageWindow(q, size, count) => size >= 1 && Visible(q, size, count, rank)
  }

  ghost predicate ShownAre(rows: seq<Row>, filters: Option<Filters>, shown: seq<bool>, w: Window) {
    && |shown| == |rows|
    && forall j: nat | j < |rows| :: shown[j] <==> Passes(filters, rows[j]) && VisibleIn(w, Rank(filters, rows, j))
  }

  /** One scrape from t to u. */
  ghost predicate Scraped(rows: seq<Row>, t: Table, u: Table) {
    && u.filters == t.filters && u.pagesize == t.pagesize
    && match t.page
       case None => u.page == None && ShownAre(rows, t.filters, u.shown, AllRows)
       case Some(p) =>
         var q, size, count := AtLeastZero(p), PageSize(t.pagesize), Count(t.filters, rows);
         && u.page == Some(StoredPage(q, size, count))
         && ShownAre(rows, t.filters, u.shown, PageWindow(q, size, count))
  }

  // ---- The forms in which a filter can be given.

  /** A filter entry: a text, a function, or nothing. */
  datatype Given = Text(text: string) | Function(test: string -> bool) | Missing

  datatype Item = Item(col: Option<nat>, given: Given)

  /** What the caller passes: nothing, the value of a select box or of a text box, or entries. */
  datatype Argument = TakeOff | SelectBox(value: string) | TextBox(value: string) | Entries(items: seq<Item>)

  predicate OneLine(s: string) { forall c <- s :: c !in "\n\r\U{2028}\U{2029}" }

  /** A text between slashes is a regular expression. */
  predicate IsPattern(s: string) { |s| >= 2 && s[0] == '/' && s[|s| - 1] == '/' && OneLine(s[1..|s| - 1]) }

  /** The builtins: a regular expression as a test, and a function's text compiled if it is one. */
  datatype Builtins = Builtins(regExp: string -> string -> bool, compile: string -> Option<string -> bool>)

  function ReadFilter(b: Builtins, given: Given): Filter {
    match given
    case Missing => Blank
    case Function(test) => Test(test)
    case Text(s) =>
      if IsPattern(s) then Test(b.regExp(s[1..|s| - 1]))
      else match b.compile(s)
        case Some(test) => Test(test)
        case None => if s == "" then Blank else Equals(s)
  }

  /** An empty list of entries counts as one entry that gives nothing. */
  function Items(arg: Argument): seq<Item> {
    match arg
    case TakeOff => []
    case SelectBox(value) => [Item(None, Text(value))]
    case TextBox(value) => [Item(None, Text("/^" + value + "/"))]
    case Entries(items) => if items == [] then [Item(None, Missing)] else items
  }

  /** The column changes of a call made from a cell in column `cellCol`, or from outside the cells. */
  function Changes(b: Builtins, items: seq<Item>, cellCol: Option<nat>): (r: seq<(Option<nat>, Filter)>)
    ensures |r| == |items|
  {
    seq(|items|, i requires 0 <= i < |items| =>
      (if items[i].col.Some? then items[i].col else cellCol, ReadFilter(b, items[i].given)))
  }

  /** Typing in a text box filters its column by the prefix, even by the empty one. */
  lemma TextBoxFiltersPrefix(b: Builtins, value: string, cellCol: Option<nat>)
    requires OneLine(value)
    ensures Changes(b, Items(TextBox(value)), cellCol) == [(cellCol, Test(b.regExp("^" + value)))]
  {
    var s := "/^" + value + "/";
    assert s[1..|s| - 1] == "^" + value;
  }

  /** Choosing a value that is neither a pattern nor a function filters the column of the select box by that value. */
  lemma SelectBoxFilters(b: Builtins, value: string, cellCol: Option<nat>, test: string -> bool)
    requires !IsPattern(value)
    ensures value != "" && b.compile(value) == None ==>
      Changes(b, Items(SelectBox(value)), cellCol) == [(cellCol, Equals(value))]
    ensures b.compile(value) == Some(test) ==>
      Changes(b, Items(SelectBox(value)), cellCol) == [(cellCol, Test(test))]
    ensures value == "" && b.compile(value) == None ==>
      Changes(b, Items(SelectBox(value)), cellCol) == [(cellCol, Blank)]
        == Changes(b, Items(Entries([])), cellCol)
  {
    hide IsPattern;
    assert !IsPattern("") by { EmptyNoPattern(); }
  }

  lemma EmptyNoPattern()
    ensures !IsPattern("")
  {
  }

  /** A text is a pattern exactly when it is a one-line text put between slashes, and then that text is the pattern. */
  lemma PatternIff(b: Builtins, s: string)
    ensures IsPattern(s) <==> exists p: string :: s == "/" + p + "/" && OneLine(p)
    ensures forall p: string | s == "/" + p + "/" && OneLine(p) :: ReadFilter(b, Text(s)) == Test(b.regExp(p))
  {
    if IsPattern(s) {
      assert s == "/" + s[1..|s| - 1] + "/";
    }
    forall p: string | s == "/" + p + "/"
      ensures |s| >= 2 && s[0] == '/' == s[|s| - 1] && s[1..|s| - 1] == p
    {
    }
  }

  /** The list form of a filter change: an empty filter deletes its column when there are filters. */
  function Refine(filters: Option<Filters>, changes: seq<(Option<nat>, Filter)>): Option<Filters>
    decreases |changes|
  {
    if changes == [] then filters else
    var (col, f) := changes[0];
    if f.Blank? && filters.Some? then
      Refine(Some(map k | k in filters.value && k != col :: filters.value[k]), changes[1..])
    else Refine(Some((if filters.Some? then filters.value else map[])[col := f]), changes[1..])
  }

  function DropEmpty(filters: Option<Filters>): Option<Filters> {
    if filters.Some? && filters.value.Keys == {} then None else filters
  }

  datatype Op =
    | SetPage(page: Option<int>, size: Option<nat>)
    | Jump(count: int)
    | Refilter(changes: Option<seq<(Option<nat>, Filter)>>)

  /** The settings with which an operation scrapes. */
  function Prepare(t: Table, op: Op): Table {
    match op
    case SetPage(page, size) =>
      t.(page := if page.Some? then page else t.page, pagesize := if size.Some? then size.value else t.pagesize)
    case Jump(count) => t.(page := Some((if t.page.Some? then t.page.value else 0) + count))
    case Refilter(changes) =>
      t.(filters := match changes case None => None case Some(list) => DropEmpty(Refine(t.filters, list)))
  }

  class Pager {
    const rows: seq<Row>
    const builtins: Builtins
    var filters: Option<Filters>
    var pageNumber: Option<int>
    var pagesize: nat
    var shown: seq<bool>

    constructor (rows: seq<Row>, builtins: Builtins)
      ensures this.rows == rows && this.builtins == builtins && View() == Table(None, None, 0, seq(|rows|, i => true))
    {
      this.rows, this.builtins := rows, builtins;
      filters, pageNumber, pagesize, shown := None, None, 0, seq(|rows|, i => true);
    }

    ghost function View(): Table
      reads this
    {
      Table(filters, pageNumber, pagesize, shown)
    }

    method Page(page: Option<int>, size: Option<nat>)
      requires |shown| == |rows|
      modifies this
      ensures Scraped(rows, Prepare(old(View()), SetPage(page, size)), View())
    {
      if page.Some? {
        pageNumber := page;
      }
      if size.Some? {
        pagesize := size.value;
      }
      Scrape();
    }

    method PageJump(count: int)
      requires |shown| == |rows|
      modifies this
      ensures Scraped(rows, Prepare(old(View()), Jump(count)), View())
    {
      Page(Some((if pageNumber.Some? then pageNumber.value else 0) + count), None);
    }

    method PageNext()
      requires |shown| == |rows|
      modifies this
      ensures Scraped(rows, Prepare(old(View()), Jump(1)), View())
    {
      PageJump(1);
    }

    method PagePrevious()
      requires |shown| == |rows|
      modifies this
      ensures Scraped(rows, Prepare(old(View()), Jump(-1)), View())
    {
      PageJump(-1);
    }

    /** `cellCol` is the column of the cell around the element that calls, if there is one. */
    method FilterRows(arg: Argument, cellCol: Option<nat>)
      requires |shown| == |rows|
      modifies this
      ensures var changes := if arg == TakeOff then None else Some(Changes(builtins, Items(arg), cellCol));
        Scraped(rows, Prepare(old(View()), Refilter(changes)), View())
    {
      hide Scraped, ReadFilter, IsPattern;
      if arg == TakeOff {
        filters := None;
      } else {
        var items := Items(arg);
        ghost var changes := Changes(builtins, items, cellCol);
        var i := 0;
        while i < |items|
          invariant 0 <= i <= |items|
          invariant Refine(old(filters), changes) == Refine(filters, changes[i..])
          invariant View() == old(View()).(filters := filters) && |shown| == |rows|
        {
          var f := ReadFilter(builtins, items[i].given);
          var col := if items[i].col.Some? then items[i].col else cellCol;
          if f.Blank? && filters.Some? {
            filters := Some(map k | k in filters.value && k != col :: filters.value[k]);
          } else {
            filters := Some((if filters.Some? then filters.value else map[])[col := f]);
          }
          i := i + 1;
        }
        if filters.Some? && filters.value.Keys == {} {
          filters := None;
        }
      }
      Scrape();
    }

    method Scrape()
      requires |shown| == |rows|
      modifies this
      ensures Scraped(rows, old(View()), View())
    {
      hide Passes, Rank, Scraped, Ranked;
      var size, pagestart, pageend := 25, 0, 0;
      if pageNumber.Some? {
        if pageNumber.value < 0 {
          pageNumber := Some(0);
        }
        size := PageSize(pagesize);
        pagestart := pageNumber.value * size + 1;
        pageend := pagestart + size - 1;
      }
      ghost var base := pagestart - 1;
      var list, count := HideOutside(pagestart, pageend);
      if pageNumber.Some? {
        ghost var q := pageNumber.value;
        ghost var firstShown := shown;
        RoundDown(count, size);
        RankedLength(list, filters, rows, |rows|);
        ghost var rest := count / size * size;
        if pagestart >= count {
          pagestart := count - count % size;
          pageNumber := Some(pagestart / size);
          ShowRest(list, pagestart);
        }
        PageShown(old(View()), View(), rows, firstShown, q, size, rest);
      } else {
        AllShown(old(View()), View(), rows);
      }
    }

    /** The first loop: hides filtered rows and, with paging on, rows outside the page. */
    method HideOutside(pagestart: nat, pageend: nat) returns (list: seq<nat>, count: nat)
      requires |shown| == |rows|
      modifies this`shown
      ensures |shown| == |rows| && count == Count(filters, rows)
      ensures pageNumber.Some? ==> Ranked(list, filters, rows, |rows|)
      ensures forall i: nat | i < |rows| :: shown[i] <==>
        Passes(filters, rows[i]) && (pageNumber.Some? ==> pagestart <= Rank(filters, rows, i) + 1 <= pageend)
    {
      hide Passes, Rank, Ranked;
      list := [];
      count := 0;
      var j := 0;
      RankStart(filters, rows);
      while j < |rows|
        invariant 0 <= j <= |rows| == |shown|
        invariant count == Rank(filters, rows, j)
        invariant pageNumber.Some? ==> Ranked(list, filters, rows, j)
        invariant forall i: nat | i < j :: shown[i] <==>
          Passes(filters, rows[i]) && (pageNumber.Some? ==> pagestart <= Rank(filters, rows, i) + 1 <= pageend)
      {
        RankNext(list, filters, rows, j);
        var hideRow := !Passes(filters, rows[j]);
        if !hideRow {
          count := count + 1;
          if pageNumber.Some? {
            list := list + [j];
            if count < pagestart || count > pageend {
              hideRow := true;
            }
          }
        }
        shown := shown[j := !hideRow];
        j := j + 1;
      }
    }

    /** The overrun: shows the filtered rows from one rank on. */
    method ShowRest(list: seq<nat>, start: nat)
      requires |shown| == |rows| && Ranked(list, filters, rows, |rows|) && start <= |list|
      modifies this`shown
      ensures |shown| == |rows|
      ensures forall r: nat | r < |rows| :: shown[r] <==>
        old(shown[r]) || (Passes(filters, rows[r]) && start <= Rank(filters, rows, r))
    {
      hide Passes, Rank;
      RankStrict(filters, rows);
      var i := start;
      while i < |list|
        invariant start <= i <= |list| && |shown| == |rows|
        invariant forall r: nat | r < |rows| :: shown[r] <==>
          old(shown[r]) || (Passes(filters, rows[r]) && start <= Rank(filters, rows, r) < i)
      {
        shown := shown[list[i] := true];
        i := i + 1;
      }
    }
  }

  lemma RankStart(filters: Option<Filters>, rows: seq<Row>)
    ensures Rank(filters, rows, 0) == 0 && Ranked([], filters, rows, 0)
  {
  }

  lemma RankNext(list: seq<nat>, filters: Option<Filters>, rows: seq<Row>, n: nat)
    requires n < |rows|
    ensures Rank(filters, rows, n + 1) == Rank(filters, rows, n) + (if Passes(filters, rows[n]) then 1 else 0)
    ensures Ranked(list, filters, rows, n) ==>
      Ranked(if Passes(filters, rows[n]) then list + [n] else list, filters, rows, n + 1)
  {
    hide Passes;
  }

  lemma RankedLength(list: seq<nat>, filters: Option<Filters>, rows: seq<Row>, n: nat)
    requires n <= |rows|
    ensures Ranked(list, filters, rows, n) ==> |list| == Rank(filters, rows, n)
  {
  }

  lemma AllShown(t: Table, u: Table, rows: seq<Row>)
    requires t.page == None && u == t.(shown := u.shown) && |u.shown| == |rows|
    requires forall i: nat | i < |rows| :: u.shown[i] <==> Passes(t.filters, rows[i])
    ensures Scraped(rows, t, u)
  {
    hide Passes, Rank;
  }

  lemma PageShown(t: Table, u: Table, rows: seq<Row>, first: seq<bool>, q: nat, size: nat, rest: nat)
    requires t.page.Some? && q == AtLeastZero(t.page.value) && size == PageSize(t.pagesize)
    requires |first| == |rows| == |u.shown| && u.filters == t.filters && u.pagesize == t.pagesize
    requires rest == Count(t.filters, rows) / size * size
    requires forall i: nat | i < |rows| :: first[i] <==>
      Passes(t.filters, rows[i]) && q * size <= Rank(t.filters, rows, i) < q * size + size
    requires u.page == Some(StoredPage(q, size, Count(t.filters, rows)))
    requires if q * size + 1 >= Count(t.filters, rows)
      then forall i: nat | i < |rows| ::
        u.shown[i] <==> first[i] || (Passes(t.filters, rows[i]) && rest <= Rank(t.filters, rows, i))
      else u.shown == first
    ensures Scraped(rows, t, u)
  {
    hide Passes, Rank;
    assert (q + 1) * size == q * size + size;
  }

  /** The list of passing rows, each at its rank. */
  ghost predicate Ranked(list: seq<nat>, filters: Option<Filters>, rows: seq<Row>, n: nat)
    requires n <= |rows|
  {
    && |list| == Rank(filters, rows, n)
    && forall k: nat | k < |list| :: list[k] < n && Passes(filters, rows[list[k]]) && Rank(filters, rows, list[k]) == k
  }

  lemma {:induction false} RankGrows(filters: Option<Filters>, rows: seq<Row>, m: nat, n: nat)
    requires m < n <= |rows|
    ensures Rank(filters, rows, n) >= Rank(filters, rows, m) + (if Passes(filters, rows[m]) then 1 else 0)
    decreases n
  {
    hide Passes;
    if m < n - 1 {
      RankGrows(filters, rows, m, n - 1);
    }
  }

  /** No two passing rows have the same rank, and ranks stay below the count. */
  lemma RankStrict(filters: Option<Filters>, rows: seq<Row>)
    ensures forall m: nat, n: nat | m < n < |rows| && Passes(filters, rows[m]) ::
        Rank(filters, rows, m) < Rank(filters, rows, n)
    ensures forall m: nat | m < |rows| && Passes(filters, rows[m]) :: Rank(filters, rows, m) < Count(filters, rows)
  {
    hide Passes, Rank;
    forall m: nat, n: nat | m < n <= |rows| && Passes(filters, rows[m])
      ensures Rank(filters, rows, m) < Rank(filters, rows, n)
    {
      RankGrows(filters, rows, m, n);
    }
  }

  lemma RoundDown(count: nat, size: nat)
    requires size >= 1
    ensures count - count % size == count / size * size
    ensures 0 <= count - count % size <= count
    ensures (count - count % size) / size == count / size
  {
    var d := count / size;
    assert count == size * d + count % size;
    assert size * d == d * size;
    Exact(d, size);
  }

  lemma Exact(d: nat, size: nat)
    requires size >= 1
    ensures d * size / size == d
  {
    ModUnique(d * size, size, d, 0);
  }

  // ---- The page shown is the page stored.

  /** The stored page is in range and exactly its rows are shown. */
  ghost predicate Consistent(rows: seq<Row>, t: Table) {
    && t.page.Some? && |t.shown| == |rows|
    && var p, size := t.page.value, PageSize(t.pagesize);
       && 0 <= p <= Count(t.filters, rows) / size
       && forall j: nat | j < |rows| ::
         t.shown[j] <==> Passes(t.filters, rows[j]) && InPage(p, size, Rank(t.filters, rows, j))
  }

  lemma BeyondCount(q: nat, d: nat, size: nat, count: nat, r: nat)
    requires count == size * d + r && r < size && q > d
    ensures q * size > count
  {
    var k := q - d - 1;
    assert (d + 1 + k) * size == size * d + size + k * size;
  }

  lemma PageInRange(q: nat, size: nat, count: nat)
    requires size >= 1
    ensures StoredPage(q, size, count) <= count / size
  {
    if q * size + 1 < count && q > count / size {
      BeyondCount(q, count / size, size, count, count % size);
    }
  }

  /**
   Below the count, the visible ranks are those of the stored page, except for a page of size 1 that holds
   the last row.
   */
  lemma VisibleIsStoredPage(q: nat, size: nat, count: nat)
    requires size >= 1
    ensures (forall rank: nat | rank < count ::
        Visible(q, size, count, rank) <==> InPage(StoredPage(q, size, count), size, rank))
       <==> !(size == 1 && q + 1 == count)
  {
    var base, low := q * size, count / size * size;
    assert (q + 1) * size == base + size && (count / size + 1) * size == low + size;
    RoundDown(count, size);
    if base + 1 == count && size >= 2 {
      ModUnique(count, size, q, 1);
    }
    if size == 1 {
      assert base == q && low == count;
    }
    RanksMatch(q, size, count, base, low);
  }

  lemma RanksMatch(q: nat, size: nat, count: nat, base: nat, low: nat)
    requires size >= 1 && base == q * size && base + size == (q + 1) * size
    requires low == count / size * size && low + size == (count / size + 1) * size && low <= count < low + size
    requires base + 1 == count && size >= 2 ==> low == base
    requires size == 1 ==> base == q && low == count
    ensures (forall rank: nat | rank < count ::
        Visible(q, size, count, rank) <==> InPage(StoredPage(q, size, count), size, rank))
       <==> !(size == 1 && q + 1 == count)
  {
    if size == 1 && q + 1 == count {
      assert Visible(q, size, count, q) && !InPage(StoredPage(q, size, count), size, q);
    } else {
      forall rank: nat | rank < count
        ensures Visible(q, size, count, rank) <==> InPage(StoredPage(q, size, count), size, rank)
      {
      }
    }
  }

  /** A scrape with paging on leaves a consistent table exactly unless a one-row page holds the last row. */
  lemma ScrapeConsistent(rows: seq<Row>, t: Table, u: Table)
    requires Scraped(rows, t, u) && t.page.Some?
    ensures Consistent(rows, u) <==>
      !(PageSize(t.pagesize) == 1 && AtLeastZero(t.page.value) + 1 == Count(t.filters, rows))
  {
    hide Passes, Rank, Visible, InPage, StoredPage, PageSize;
    var q, size, count := AtLeastZero(t.page.value), PageSize(t.pagesize), Count(t.filters, rows);
    PageInRange(q, size, count);
    VisibleIsStoredPage(q, size, count);
    RankStrict(t.filters, rows);
    if size == 1 && q + 1 == count {
      var rank: nat :| rank < count
        && !(Visible(q, size, count, rank) <==> InPage(StoredPage(q, size, count), size, rank));
      var j := RowOfRank(t.filters, rows, |rows|, rank);
      assert !Consistent(rows, u);
    }
  }

  lemma {:induction false} RowOfRank(filters: Option<Filters>, rows: seq<Row>, n: nat, rank: nat) returns (j: nat)
    requires n <= |rows| && rank < Rank(filters, rows, n)
    ensures j < n && Passes(filters, rows[j]) && Rank(filters, rows, j) == rank
    decreases n
  {
    hide Passes;
    if rank < Rank(filters, rows, n - 1) {
      j := RowOfRank(filters, rows, n - 1, rank);
    } else {
      j := n - 1;
    }
  }

  ghost predicate IsRun(rows: seq<Row>, t: Table, ops: seq<Op>, u: Table)
    decreases |ops|
  {
    if ops == [] then t == u
    else exists mid: Table :: Scraped(rows, Prepare(t, ops[0]), mid) && IsRun(rows, mid, ops[1..], u)
  }

  /** No operation sets a page size of one. */
  predicate WidePages(ops: seq<Op>) {
    forall i: nat | i < |ops| && ops[i].SetPage? && ops[i].size.Some? :: ops[i].size.value != 1
  }

  /** Once paging is on, with pages of two or more rows, every run ends consistent. */
  lemma {:induction false} RunsStayConsistent(rows: seq<Row>, t: Table, ops: seq<Op>, u: Table)
    requires t.page.Some? && t.pagesize != 1 && WidePages(ops)
    requires IsRun(rows, t, ops, u) && ops != []
    ensures Consistent(rows, u) && u.pagesize != 1
    decreases |ops|
  {
    hide Consistent;
    var v := Prepare(t, ops[0]);
    assert v.page.Some? && v.pagesize != 1;
    var mid: Table :| Scraped(rows, v, mid) && IsRun(rows, mid, ops[1..], u);
    ScrapeConsistent(rows, v, mid);
    if |ops| > 1 {
      RunsStayConsistent(rows, mid, ops[1..], u);
    }
  }

  /** A plain text for a column, without paging: exactly the rows with that text there, or without the column. */
  lemma TextFilterShows(b: Builtins, rows: seq<Row>, t: Table, u: Table, col: nat, text: string, cellCol: Option<nat>)
    requires t.filters == None && t.page == None && text != "" && !IsPattern(text) && b.compile(text) == None
    requires var entries := Items(Entries([Item(Some(col), Text(text))]));
      Scraped(rows, Prepare(t, Refilter(Some(Changes(b, entries, cellCol)))), u)
    ensures |u.shown| == |rows|
    ensures forall j: nat | j < |rows| :: u.shown[j] <==> (col < |rows[j]| ==> rows[j][col] == text)
  {
    var changes := Changes(b, Items(Entries([Item(Some(col), Text(text))])), cellCol);
    assert changes == [(Some(col), Equals(text))];
    OneFilter(changes, col, text);
  }

  lemma OneFilter(changes: seq<(Option<nat>, Filter)>, col: nat, text: string)
    requires changes == [(Some(col), Equals(text))]
    ensures DropEmpty(Refine(None, changes)) == Some(map[Some(col) := Equals(text)])
  {
    assert changes[1..] == [];
    assert Some(col) in map[Some(col) := Equals(text)].Keys;
  }

  /** An empty text without filters filters nothing: every row is shown. */
  lemma EmptyTextFiltersNothing(b: Builtins, rows: seq<Row>, t: Table, u: Table, col: nat, cellCol: Option<nat>)
    requires t.filters == None && t.page == None && b.compile("") == None
    requires var entries := Items(Entries([Item(Some(col), Text(""))]));
      Scraped(rows, Prepare(t, Refilter(Some(Changes(b, entries, cellCol)))), u)
    ensures |u.shown| == |rows| && forall j: nat | j < |rows| :: u.shown[j]
  {
    var changes := Changes(b, Items(Entries([Item(Some(col), Text(""))])), cellCol);
    assert changes == [(Some(col), Blank)] && changes[1..] == [];
    assert Some(col) in map[Some(col) := Blank].Keys;
    assert DropEmpty(Refine(None, changes)) == Some(map[Some(col) := Blank]);
  }

  /** An empty text for the only filtered column takes the filter off, and every row is shown. */
  lemma EmptyTextShowsAll(b: Builtins, rows: seq<Row>, t: Table, u: Table, col: nat, f: Filter, cellCol: Option<nat>)
    requires t.filters == Some(map[Some(col) := f]) && t.page == None && b.compile("") == None
    requires var entries := Items(Entries([Item(Some(col), Text(""))]));
      Scraped(rows, Prepare(t, Refilter(Some(Changes(b, entries, cellCol)))), u)
    ensures u.filters == None && |u.shown| == |rows| && forall j: nat | j < |rows| :: u.shown[j]
  {
    var changes := Changes(b, Items(Entries([Item(Some(col), Text(""))])), cellCol);
    assert changes == [(Some(col), Blank)];
    FilterDropped(changes, col, f);
  }

  lemma FilterDropped(changes: seq<(Option<nat>, Filter)>, col: nat, f: Filter)
    requires changes == [(Some(col), Blank)]
    ensures DropEmpty(Refine(Some(map[Some(col) := f]), changes)) == None
  {
    assert changes[1..] == [];
  }

  /**
   Asking for a page that rows follow: it is stored, and of the rows that pass exactly those with ranks p * n to
   p * n + n - 1 are shown.  What is not given stays as it was; without a page size n is 25.
   */
  lemma PageShows(rows: seq<Row>, t: Table, u: Table, page: Option<int>, size: Option<nat>, p: nat, n: nat)
    requires Scraped(rows, Prepare(t, SetPage(page, size)), u)
    requires Some(p) == (if page.Some? then page else t.page)
    requires var given := if size.Some? then size.value else t.pagesize; n == (if given == 0 then 25 else given)
    requires p * n + 1 < Count(t.filters, rows)
    ensures u.page == Some(p) && u.filters == t.filters && |u.shown| == |rows|
    ensures forall j: nat | j < |rows| ::
      u.shown[j] <==> Passes(t.filters, rows[j]) && p * n <= Rank(t.filters, rows, j) < p * n + n
  {
    hide Rank, Passes;
    assert (p + 1) * n == p * n + n;
  }

  /** A jump counts from page 0 when none was asked for before. */
  lemma FirstJump(rows: seq<Row>, t: Table, u: Table, k: nat)
    requires t.page == None && Scraped(rows, Prepare(t, Jump(k)), u)
    requires k * PageSize(t.pagesize) + 1 < Count(t.filters, rows)
    ensures u.page == Some(k)
  {
    hide Rank, Passes, ShownAre;
  }

  /**
   From a stored page p: next goes to p + 1 exactly when p is not the last page, and next and then previous comes back
   to p exactly when p is not the last page or is page 0.  With pages of one row the last page is stored as the page
   after it, so next skips it and previous does not come back from it.
   */
  lemma NextThenPrevious(rows: seq<Row>, t: Table, u: Table, v: Table)
    requires Scraped(rows, Prepare(t, Jump(1)), u) && Scraped(rows, Prepare(u, Jump(-1)), v)
    requires t.page.Some? && 0 <= t.page.value <= Count(t.filters, rows) / PageSize(t.pagesize)
    ensures var p, size, count := t.page.value, PageSize(t.pagesize), Count(t.filters, rows);
      && (u.page == Some(p + 1) <==> if size == 1 then p + 2 < count || p + 1 == count else p < count / size)
      && (v.page == Some(p) <==> if size == 1 then p + 2 < count || p == count else p < count / size || p == 0)
  {
    hide Rank, Passes, ShownAre;
    var p, size, count := t.page.value, PageSize(t.pagesize), Count(t.filters, rows);
    Forward(p, size, count);
    var w := u.page.value;
    PageInRange(p + 1, size, count);
    Backward(w, size, count);
  }

  lemma Forward(p: nat, size: nat, count: nat)
    requires size >= 1 && p <= count / size
    ensures StoredPage(p + 1, size, count) ==
      if size == 1 then (if p + 2 >= count then count else p + 1) else Min(p + 1, count / size)
  {
    var last := count / size;
    assert count == size * last + count % size;
    if size >= 2 {
      if p + 1 > last {
        BeyondCount(p + 1, last, size, count, count % size);
      } else {
        MulMono(p + 1, last, size);
        if p + 1 < last {
          MulMono(p + 2, last, size);
          assert (p + 2) * size == (p + 1) * size + size;
        }
      }
    }
  }

  lemma Backward(w: nat, size: nat, count: nat)
    requires size >= 1 && w <= count / size
    ensures StoredPage(AtLeastZero(w - 1), size, count) ==
      if size == 1 && AtLeastZero(w - 1) + 1 >= count then count else AtLeastZero(w - 1)
  {
    var last := count / size;
    assert count == size * last + count % size;
    if size >= 2 {
      if w > 0 {
        MulMono(w, last, size);
        assert w * size == (w - 1) * size + size;
      } else {
        assert 0 * size == 0;
      }
    }
  }

  /** With pages of one row, previous never leaves the page that is stored at the end. */
  lemma OneRowPageStays(rows: seq<Row>, t: Table, u: Table)
    requires PageSize(t.pagesize) == 1 && t.page == Some(Count(t.filters, rows))
    requires Scraped(rows, Prepare(t, Jump(-1)), u)
    ensures u.page == t.page
  {
    hide Rank, Passes, ShownAre;
  }

  /** Two rows, pages of one: asking for the second page shows its row but stores page 2. */
  lemma OneRowPageSlips(u: Table)
    requires Scraped([[], []], Table(None, Some(1), 1, [true, true]), u)
    ensures u.page == Some(2) && u.shown == [false, true] && !Consistent([[], []], u)
  {
    var rows: seq<Row> := [[], []];
    assert Rank(None, rows, 1) == 1 && Rank(None, rows, 2) == 2;
  }
}
