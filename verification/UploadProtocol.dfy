/**
 The chunked upload as a state machine over user events and browser replies.  Two
 uploaders share it: the router panel and the shared-folder panel differ in chunk
 size, in what a selection resets and in how they test for the end.
 */
module UploadProtocol {
  import opened Basics

  type Bytes = seq<int>

  datatype Config = Config(chunk: nat, resetOnSelect: bool, exactTest: bool)

  const ROUTER := Config(4096, true, false)
  const SHARED := Config(65536, false, true)

  /** A PUT: the range written into its header and the bytes it carries. */
  datatype Put = Put(first: nat, last: nat, data: Bytes)

  datatype Outcome = Complete | Cancelled

  datatype Transfer = Transfer(outcome: Outcome, file: Bytes, puts: seq<Put>)

  /**
   `slices` are the slices whose FileReader has not finished, `waiting` counts the PUTs
   without a reply.  `sent` logs the PUTs of the current transfer and `finished` the
   transfers that were completed (bar at 100%) or cancelled.
   */
  datatype State = State(
    file: Option<Bytes>, askConfirm: bool,
    pause: bool, cancel: bool, fromSize: nat, toSize: nat, total: nat,
    slices: seq<Bytes>, waiting: nat,
    sent: seq<Put>, finished: seq<Transfer>)

  const INITIAL := State(None, false, false, false, 0, 0, 0, [], 0, [], [])

  datatype Event =
    | Select(chosen: Option<Bytes>, nameTooLong: bool, nameTaken: bool)
    | ConfirmOk
    | PauseClick
    | CancelClick
    | ReadDone(i: nat)
    | PutOk

  /** `file.slice(a, b)`: bounds past the end are clamped, a crossed range is empty. */
  function Slice(f: Bytes, a: nat, b: nat): Bytes {
    if a < b && a < |f| then f[a..Min(b, |f|)] else []
  }

  function Upload(cfg: Config, s: State): State {
    if s.file.None? then s else
    var size := |s.file.value|;
    var to := if s.toSize + cfg.chunk > size then size else s.toSize + cfg.chunk;
    s.(total := size, fromSize := s.toSize, toSize := to, slices := s.slices + [Slice(s.file.value, s.toSize, to)])
  }

  predicate AtEnd(cfg: Config, s: State) {
    if cfg.exactTest then s.toSize == s.total else s.toSize >= s.total
  }

  /** Closes the current transfer: offsets back to 0 and the log filed away. */
  function Close(s: State, outcome: Outcome): State {
    s.(fromSize := 0, toSize := 0, sent := [],
       finished := s.finished + [Transfer(outcome, if s.file.Some? then s.file.value else [], s.sent)])
  }

  function Ondoing(cfg: Config, s: State): State {
    if s.cancel then Close(s, Cancelled)
    else if s.pause then s
    else if AtEnd(cfg, s) then Close(s, Complete)
    else Upload(cfg, s)
  }

  function SelectFile(cfg: Config, s: State, chosen: Option<Bytes>, nameTooLong: bool, nameTaken: bool): State {
    var t := s.(pause := false, cancel := false, file := chosen, askConfirm := false, sent := []);
    if cfg.resetOnSelect then
      var r := t.(fromSize := 0, toSize := 0, total := 0);
      if chosen.None? || |chosen.value| == 0 || nameTooLong then r
      else if nameTaken then r.(askConfirm := true)
      else Upload(cfg, r)
    else Upload(cfg, t)
  }

  predicate Enabled(s: State, e: Event) {
    match e
    case ConfirmOk => s.askConfirm
    case ReadDone(i) => i < |s.slices|
    case PutOk => s.waiting > 0
    case _ => true
  }

  function Step(cfg: Config, s: State, e: Event): State
    requires Enabled(s, e)
  {
    match e
    case Select(chosen, nameTooLong, nameTaken) => SelectFile(cfg, s, chosen, nameTooLong, nameTaken)
    case ConfirmOk => Upload(cfg, s.(askConfirm := false))
    case PauseClick => if s.pause then Upload(cfg, s.(pause := false)) else s.(pause := true)
    case CancelClick => if s.pause then Upload(cfg, s.(cancel := true)) else s.(cancel := true)
    case ReadDone(i) =>
      s.(slices := s.slices[..i] + s.slices[i + 1..], waiting := s.waiting + 1,
         sent := s.sent + [Put(s.fromSize, s.toSize, s.slices[i])])
    case PutOk => Ondoing(cfg, s.(waiting := s.waiting - 1))
  }

  // ---- Runs.

  predicate Quiet(s: State) { |s.slices| == 0 && s.waiting == 0 }

  /** Selecting, confirming, continuing and cancelling while paused start a chunk. */
  predicate StartsChunk(s: State, e: Event) {
    e.Select? || e.ConfirmOk? || ((e.PauseClick? || e.CancelClick?) && s.pause)
  }

  /**
   The stated domain: a chunk is started by hand only when none is outstanding, and the
   shared uploader, which does not reset on select, changes files only while nothing of the
   current transfer has been sent.
   */
  predicate Allowed(cfg: Config, s: State, e: Event) {
    && Enabled(s, e)
    && (StartsChunk(s, e) ==> Quiet(s))
    && (e.Select? && !cfg.resetOnSelect ==> s.sent == [])
  }

  ghost predicate IsRun(cfg: Config, s: State, events: seq<Event>, t: State)
    decreases |events|
  {
    if events == [] then s == t
    else Allowed(cfg, s, events[0]) && IsRun(cfg, Step(cfg, s, events[0]), events[1..], t)
  }

  /** Chunk number k of a file. */
  function Piece(f: Bytes, chunk: nat, k: nat): Put {
    var a, b := Min(k * chunk, |f|), Min((k + 1) * chunk, |f|);
    Put(a, b, Slice(f, a, b))
  }

  /** The first n chunks, in order: consecutive half-open ranges from 0. */
  function Tiling(f: Bytes, chunk: nat, n: nat): (r: seq<Put>)
    ensures |r| == n
  {
    if n == 0 then [] else Tiling(f, chunk, n - 1) + [Piece(f, chunk, n - 1)]
  }

  function Joined(puts: seq<Put>): Bytes {
    if puts == [] then [] else Joined(puts[..|puts| - 1]) + puts[|puts| - 1].data
  }

  lemma {:induction false} TilingJoins(f: Bytes, chunk: nat, n: nat)
    ensures Min(n * chunk, |f|) >= 0
    ensures Joined(Tiling(f, chunk, n)) == f[..Min(n * chunk, |f|)]
  {
    if n > 0 {
      TilingJoins(f, chunk, n - 1);
      var r := Tiling(f, chunk, n);
      assert r[..n - 1] == Tiling(f, chunk, n - 1);
      assert n * chunk == (n - 1) * chunk + chunk;
    }
  }

  ghost predicate GoodTransfer(cfg: Config, t: Transfer) {
    && t.puts == Tiling(t.file, cfg.chunk, |t.puts|)
    && (t.outcome == Complete ==> |t.puts| * cfg.chunk >= |t.file|)
  }

  ghost predicate Inv(cfg: Config, s: State) {
    && |s.slices| + s.waiting <= 1 && s.fromSize <= s.toSize
    && (forall t <- s.finished :: GoodTransfer(cfg, t))
    && match s.file
       case None => Quiet(s) && s.toSize == 0 && s.sent == []
       case Some(f) =>
         var n := |s.sent|;
         && s.sent == Tiling(f, cfg.chunk, n)
         && (!Quiet(s) ==> s.total == |f|)
         && (if |s.slices| == 1
             then && s.fromSize == Min(n * cfg.chunk, |f|) && s.toSize == Min((n + 1) * cfg.chunk, |f|)
                  && s.slices[0] == Slice(f, s.fromSize, s.toSize)
             else s.toSize == Min(n * cfg.chunk, |f|))
  }

  lemma UploadKeepsInv(cfg: Config, s: State)
    requires Inv(cfg, s) && Quiet(s)
    ensures Inv(cfg, Upload(cfg, s))
  {
    if s.file.Some? {
      var n := |s.sent|;
      assert (n + 1) * cfg.chunk == n * cfg.chunk + cfg.chunk;
    }
  }

  lemma ReplyKeepsInv(cfg: Config, s: State)
    requires Inv(cfg, s) && s.waiting > 0
    ensures Inv(cfg, Step(cfg, s, PutOk))
  {
    var t := s.(waiting := s.waiting - 1);
    assert 0 * cfg.chunk == 0;
    assert Inv(cfg, t);
    if !t.cancel && !t.pause && !AtEnd(cfg, t) {
      UploadKeepsInv(cfg, t);
    }
  }

  lemma SelectKeepsInv(cfg: Config, s: State, e: Event)
    requires e.Select? && Inv(cfg, s) && Allowed(cfg, s, e)
    ensures Inv(cfg, Step(cfg, s, e))
  {
    var t := s.(pause := false, cancel := false, file := e.chosen, askConfirm := false, sent := []);
    assert 0 * cfg.chunk == 0;
    UploadKeepsInv(cfg, if cfg.resetOnSelect then t.(fromSize := 0, toSize := 0, total := 0) else t);
  }

  lemma ClickKeepsInv(cfg: Config, s: State, e: Event)
    requires e.PauseClick? || e.CancelClick? || e.ConfirmOk?
    requires Inv(cfg, s) && Allowed(cfg, s, e)
    ensures Inv(cfg, Step(cfg, s, e))
  {
    if StartsChunk(s, e) {
      UploadKeepsInv(cfg, s.(askConfirm := false));
      UploadKeepsInv(cfg, s.(pause := false));
      UploadKeepsInv(cfg, s.(cancel := true));
    }
  }

  lemma StepKeepsInv(cfg: Config, s: State, e: Event)
    requires Inv(cfg, s) && Allowed(cfg, s, e)
    ensures Inv(cfg, Step(cfg, s, e))
  {
    match e
    case Select(_, _, _) => hide *; SelectKeepsInv(cfg, s, e);
    case ConfirmOk => hide *; ClickKeepsInv(cfg, s, e);
    case PauseClick => hide *; ClickKeepsInv(cfg, s, e);
    case CancelClick => hide *; ClickKeepsInv(cfg, s, e);
    case ReadDone(_) => hide Tiling, Piece, Slice;
    case PutOk => ReplyKeepsInv(cfg, s);
  }

  lemma {:induction false} RunKeepsInv(cfg: Config, s: State, events: seq<Event>, t: State)
    requires Inv(cfg, s) && IsRun(cfg, s, events, t)
    ensures Inv(cfg, t)
    decreases |events|
  {
    if events != [] {
      StepKeepsInv(cfg, s, events[0]);
      RunKeepsInv(cfg, Step(cfg, s, events[0]), events[1..], t);
    }
  }

  // ---- What every allowed run guarantees.

  lemma {:induction false} TilingAt(f: Bytes, chunk: nat, n: nat, k: nat)
    requires k < n
    ensures Tiling(f, chunk, n)[k] == Piece(f, chunk, k)
  {
    if k < n - 1 {
      TilingAt(f, chunk, n - 1, k);
    }
  }

  /**
   The k-th range starts where the one before ended, is one chunk long or ends the file, and is empty only
   past the end.
   */
  ghost predicate Follows(puts: seq<Put>, f: Bytes, chunk: nat, k: nat)
    requires k < |puts|
  {
    && puts[k].first == (if k == 0 then 0 else puts[k - 1].last)
    && puts[k].first <= puts[k].last <= |f|
    && puts[k].last - puts[k].first <= chunk
    && (puts[k].last - puts[k].first == chunk || puts[k].last == |f|)
    && (chunk > 0 ==> (puts[k].data == [] <==> k * chunk >= |f|))
    && puts[k].data == f[puts[k].first..puts[k].last]
  }

  ghost predicate Consecutive(puts: seq<Put>, f: Bytes, chunk: nat) {
    forall k: nat | k < |puts| :: Follows(puts, f, chunk, k)
  }

  lemma PieceFits(f: Bytes, chunk: nat, k: nat)
    ensures var p := Piece(f, chunk, k);
      && p.first <= p.last <= |f| && p.last - p.first <= chunk && p.data == f[p.first..p.last]
      && (p.last - p.first == chunk || p.last == |f|) && (chunk > 0 ==> (p.data == [] <==> k * chunk >= |f|))
      && p.first == (if k == 0 then 0 else Piece(f, chunk, k - 1).last)
  {
    assert (k + 1) * chunk == k * chunk + chunk && 0 * chunk == 0;
    assert k > 0 ==> (k - 1 + 1) * chunk == k * chunk;
  }

  lemma TilingIsConsecutive(f: Bytes, chunk: nat, n: nat)
    ensures Consecutive(Tiling(f, chunk, n), f, chunk)
  {
    hide Piece, Tiling;
    var puts := Tiling(f, chunk, n);
    forall k: nat | k < n
      ensures Follows(puts, f, chunk, k)
    {
      TilingAt(f, chunk, n, k);
      PieceFits(f, chunk, k);
      if k > 0 { TilingAt(f, chunk, n, k - 1); }
    }
  }

  /** A transfer's PUTs are consecutive ranges of its file; a completed one carried it all. */
  ghost predicate Tiles(puts: seq<Put>, f: Bytes, chunk: nat, whole: bool) {
    && Consecutive(puts, f, chunk)
    && Joined(puts) <= f
    && (whole ==> Joined(puts) == f)
  }

  lemma TilingTiles(f: Bytes, chunk: nat, n: nat)
    ensures Tiles(Tiling(f, chunk, n), f, chunk, n * chunk >= |f|)
  {
    hide Tiling, Joined, Consecutive;
    TilingIsConsecutive(f, chunk, n);
    TilingJoins(f, chunk, n);
  }

  lemma EveryRunTilesTheFile(cfg: Config, events: seq<Event>, t: State)
    requires IsRun(cfg, INITIAL, events, t)
    ensures t.file.Some? ==> Tiles(t.sent, t.file.value, cfg.chunk, false) && t.toSize <= |t.file.value|
    ensures forall x <- t.finished :: Tiles(x.puts, x.file, cfg.chunk, x.outcome == Complete)
  {
    hide Tiling, Tiles;
    RunKeepsInv(cfg, INITIAL, events, t);
    if t.file.Some? {
      TilingTiles(t.file.value, cfg.chunk, |t.sent|);
      Weaker(t.sent, t.file.value, cfg.chunk, |t.sent| * cfg.chunk >= |t.file.value|, false);
    }
    forall x <- t.finished
      ensures Tiles(x.puts, x.file, cfg.chunk, x.outcome == Complete)
    {
      assert GoodTransfer(cfg, x);
      TilingTiles(x.file, cfg.chunk, |x.puts|);
      Weaker(x.puts, x.file, cfg.chunk, |x.puts| * cfg.chunk >= |x.file|, x.outcome == Complete);
    }
  }

  lemma Weaker(puts: seq<Put>, f: Bytes, chunk: nat, whole: bool, asked: bool)
    requires Tiles(puts, f, chunk, whole) && (asked ==> whole)
    ensures Tiles(puts, f, chunk, asked)
  {
  }

  /** Between transfers both offsets are 0, so the next upload starts at 0 even where a selection resets nothing. */
  lemma IdleIsReset(cfg: Config, events: seq<Event>, t: State)
    requires IsRun(cfg, INITIAL, events, t) && Quiet(t) && t.sent == []
    ensures t.fromSize == 0 == t.toSize
  {
    RunKeepsInv(cfg, INITIAL, events, t);
    hide IsRun;
    assert 0 * cfg.chunk == 0;
  }

  /** So in every allowed run a selection that starts a chunk starts it at 0. */
  lemma EverySelectionStartsAtZero(cfg: Config, events: seq<Event>, t: State, e: Event)
    requires IsRun(cfg, INITIAL, events, t) && e.Select? && Allowed(cfg, t, e)
    ensures Step(cfg, t, e).fromSize == 0
    ensures Step(cfg, t, e).slices == []
         || Step(cfg, t, e).slices == [Slice(e.chosen.value, 0, Min(cfg.chunk, |e.chosen.value|))]
  {
    if !cfg.resetOnSelect {
      IdleIsReset(cfg, events, t);
    }
    hide IsRun;
  }

  /** At a reply the offset is never past the end, so testing for equality is as good as testing for at least. */
  lemma ExactTestSuffices(cfg: Config, events: seq<Event>, t: State)
    requires IsRun(cfg, INITIAL, events, t) && t.waiting > 0
    ensures t.file.Some? && t.total == |t.file.value| && t.toSize <= t.total
    ensures AtEnd(cfg, t) <==> t.toSize >= t.total
  {
    RunKeepsInv(cfg, INITIAL, events, t);
    hide IsRun;
  }

  /** An event queues an empty slice exactly when it starts a chunk by hand with no byte of the file left. */
  lemma EmptySliceIff(cfg: Config, s: State, e: Event)
    requires Inv(cfg, s) && Allowed(cfg, s, e) && cfg.chunk > 0
    ensures var t := Step(cfg, s, e);
      (s.slices == [] && t.slices != [] && t.slices[0] == []) <==>
        if e.Select? then !cfg.resetOnSelect && e.chosen == Some([])
        else StartsChunk(s, e) && s.file.Some? && s.toSize >= |s.file.value|
  {
    hide Tiling;
    assert 0 * cfg.chunk == 0;
    if e.Select? && cfg.resetOnSelect && e.chosen.Some? && e.chosen.value != [] {
      var f := e.chosen.value;
      assert Slice(f, 0, Min(cfg.chunk, |f|)) == f[0..Min(cfg.chunk, |f|)];
    }
  }

  /** A reply starts only non-empty chunks, and none while paused or cancelled. */
  lemma RepliesQueueNoEmptyChunk(cfg: Config, s: State)
    requires Inv(cfg, s) && Allowed(cfg, s, PutOk) && cfg.chunk > 0
    ensures var t := Step(cfg, s, PutOk);
      t.slices == [] || (t.slices[0] != [] && s.toSize < s.total && !s.pause && !s.cancel)
  {
  }

  function Ceil(n: nat, d: nat): nat
    requires d > 0
  {
    (n + d - 1) / d
  }

  function Rounds(k: nat): seq<Event> {
    if k == 0 then [] else [ReadDone(0), PutOk] + Rounds(k - 1)
  }

  /** One chunk is read and confirmed, and nobody clicks. */
  lemma OneRound(cfg: Config, s: State) returns (r: State, u: State)
    requires Inv(cfg, s) && s.file.Some? && |s.slices| == 1 && !s.pause && !s.cancel
    ensures Allowed(cfg, s, ReadDone(0)) && r == Step(cfg, s, ReadDone(0))
    ensures s.waiting == 0 && r.slices == []
    ensures Allowed(cfg, r, PutOk) && u == Step(cfg, r, PutOk) && Inv(cfg, u)
    ensures var f, n := s.file.value, |s.sent|;
      if (n + 1) * cfg.chunk >= |f|
      then Quiet(u) && u.fromSize == 0 == u.toSize
        && u.finished == s.finished + [Transfer(Complete, f, Tiling(f, cfg.chunk, n + 1))]
      else u.file == s.file && |u.slices| == 1 && !u.pause && !u.cancel && |u.sent| == n + 1 && u.finished == s.finished
  {
    hide Piece, Slice;
    var f, n := s.file.value, |s.sent|;
    r := Step(cfg, s, ReadDone(0));
    StepKeepsInv(cfg, s, ReadDone(0));
    assert r.sent == Tiling(f, cfg.chunk, n + 1) && r.total == |f| && r.toSize == Min((n + 1) * cfg.chunk, |f|);
    u := Step(cfg, r, PutOk);
    StepKeepsInv(cfg, r, PutOk);
  }

  /** Nobody clicks: one more round per missing chunk, and the whole file is up. */
  lemma {:induction false} RoundsFinish(cfg: Config, s: State, k: nat) returns (t: State)
    requires Inv(cfg, s) && s.file.Some? && |s.slices| == 1 && !s.pause && !s.cancel && cfg.chunk > 0
    requires var f := s.file.value; |s.sent| * cfg.chunk < |f| && k == Ceil(|f|, cfg.chunk) - |s.sent|
    ensures IsRun(cfg, s, Rounds(k), t) && Quiet(t) && t.fromSize == 0 == t.toSize
    ensures var f := s.file.value;
      t.finished == s.finished + [Transfer(Complete, f, Tiling(f, cfg.chunk, Ceil(|f|, cfg.chunk)))]
    decreases k
  {
    hide Inv, Step, Allowed, Tiling, Ceil, Quiet;
    var f, n := s.file.value, |s.sent|;
    CeilBounds(|f|, cfg.chunk, n);
    CeilBounds(|f|, cfg.chunk, n + 1);
    var r, u := OneRound(cfg, s);
    if k == 1 {
      t := u;
    } else {
      t := RoundsFinish(cfg, u, k - 1);
    }
    RoundRuns(cfg, s, r, u, Rounds(k - 1), t);
  }

  lemma RoundRuns(cfg: Config, s: State, r: State, u: State, rest: seq<Event>, t: State)
    requires Allowed(cfg, s, ReadDone(0)) && r == Step(cfg, s, ReadDone(0))
    requires Allowed(cfg, r, PutOk) && u == Step(cfg, r, PutOk) && IsRun(cfg, u, rest, t)
    ensures IsRun(cfg, s, [ReadDone(0), PutOk] + rest, t)
  {
    hide Step, Allowed;
    var two := [PutOk] + rest;
    assert two[1..] == rest && ([ReadDone(0), PutOk] + rest)[1..] == two;
    assert IsRun(cfg, r, two, t);
  }

  predicate ClickFree(events: seq<Event>) { forall i: nat | i < |events| :: events[i].ReadDone? || events[i].PutOk? }

  /** Every run without clicks is a beginning of that one, so it has at most two events for each missing chunk. */
  lemma {:induction false} ClickFreeRunsAreRounds(cfg: Config, s: State, k: nat, events: seq<Event>, t: State)
    requires Inv(cfg, s) && s.file.Some? && |s.slices| == 1 && !s.pause && !s.cancel && cfg.chunk > 0
    requires var f := s.file.value; |s.sent| * cfg.chunk < |f| && k == Ceil(|f|, cfg.chunk) - |s.sent|
    requires ClickFree(events) && IsRun(cfg, s, events, t)
    ensures events <= Rounds(k) && |events| <= 2 * k
    decreases k
  {
    hide Inv, Step, Tiling, Ceil;
    var f, n := s.file.value, |s.sent|;
    CeilBounds(|f|, cfg.chunk, n);
    CeilBounds(|f|, cfg.chunk, n + 1);
    var r, u := OneRound(cfg, s);
    RoundsAre(k);
    if |events| >= 1 {
      assert events[0] == ReadDone(0);
      if |events| >= 2 {
        assert events[1..][0] == events[1] == PutOk;
        var rest := events[2..];
        assert events[1..][1..] == rest && IsRun(cfg, u, rest, t) && ClickFree(rest);
        assert events == [ReadDone(0), PutOk] + rest;
        if k == 1 {
          NothingEnabled(u, rest);
        } else {
          ClickFreeRunsAreRounds(cfg, u, k - 1, rest, t);
        }
      }
    }
  }

  lemma RoundsAre(k: nat)
    ensures |Rounds(k)| == 2 * k && (k > 0 ==> Rounds(k) == [ReadDone(0), PutOk] + Rounds(k - 1))
  {
    if k > 0 {
      RoundsAre(k - 1);
    }
  }

  lemma NothingEnabled(u: State, rest: seq<Event>)
    requires Quiet(u) && ClickFree(rest)
    ensures rest != [] ==> !Enabled(u, rest[0])
  {
  }

  lemma CeilBounds(size: nat, chunk: nat, n: nat)
    requires chunk > 0
    ensures n * chunk < size <==> n < Ceil(size, chunk)
  {
    var c := Ceil(size, chunk);
    var r := (size + chunk - 1) % chunk;
    assert size + chunk - 1 == chunk * c + r;
    if n < c {
      assert chunk * c >= chunk * (n + 1) by { MulMono(n + 1, c, chunk); }
      assert chunk * (n + 1) == chunk * n + chunk;
    } else {
      assert chunk * n >= chunk * c by { MulMono(c, n, chunk); }
    }
    assert chunk * n == n * chunk;
  }

  /** From a selection to 100% without a click: exactly Ceil(size / chunk) PUTs, none empty. */
  lemma UnpausedUploadFinishes(cfg: Config, s: State, f: Bytes) returns (t: State)
    requires Inv(cfg, s) && cfg.chunk > 0 && |f| > 0
    requires Allowed(cfg, s, Select(Some(f), false, false))
    ensures IsRun(cfg, s, [Select(Some(f), false, false)] + Rounds(Ceil(|f|, cfg.chunk)), t)
    ensures Quiet(t) && t.fromSize == 0 == t.toSize
    ensures t.finished == s.finished + [Transfer(Complete, f, Tiling(f, cfg.chunk, Ceil(|f|, cfg.chunk)))]
    ensures forall k: nat | k < Ceil(|f|, cfg.chunk) :: Tiling(f, cfg.chunk, Ceil(|f|, cfg.chunk))[k].data != []
  {
    hide Inv, Step, Allowed, Tiling, Ceil, Rounds, Quiet;
    var e := Select(Some(f), false, false);
    var u := Step(cfg, s, e);
    SelectStarts(cfg, s, f);
    assert 0 * cfg.chunk == 0;
    t := RoundsFinish(cfg, u, Ceil(|f|, cfg.chunk));
    assert ([e] + Rounds(Ceil(|f|, cfg.chunk)))[1..] == Rounds(Ceil(|f|, cfg.chunk));
    forall k: nat | k < Ceil(|f|, cfg.chunk)
      ensures Tiling(f, cfg.chunk, Ceil(|f|, cfg.chunk))[k].data != []
    {
      TilingAt(f, cfg.chunk, Ceil(|f|, cfg.chunk), k);
      CeilBounds(|f|, cfg.chunk, k);
      assert (k + 1) * cfg.chunk == k * cfg.chunk + cfg.chunk;
    }
  }

  lemma SelectStarts(cfg: Config, s: State, f: Bytes)
    requires Inv(cfg, s) && |f| > 0 && Allowed(cfg, s, Select(Some(f), false, false))
    ensures var u := Step(cfg, s, Select(Some(f), false, false));
      && Inv(cfg, u) && u.file == Some(f) && |u.slices| == 1 && !u.pause && !u.cancel && u.sent == []
      && u.finished == s.finished
  {
    hide Inv;
    StepKeepsInv(cfg, s, Select(Some(f), false, false));
  }

  // ---- Outside the domain the tiling fails.

  /** Continue with a chunk outstanding: the first PUT carries chunk 0 under the range of chunk 1. */
  lemma ContinueTooEarlyMislabels(cfg: Config, f: Bytes)
    requires cfg.chunk > 0 && |f| > cfg.chunk
    ensures var s1 := Step(cfg, INITIAL, Select(Some(f), false, false));
            var s2 := Step(cfg, Step(cfg, s1, PauseClick), PauseClick);
            && Allowed(cfg, INITIAL, Select(Some(f), false, false))
            && !Allowed(cfg, Step(cfg, s1, PauseClick), PauseClick)
            && Enabled(s2, ReadDone(0))
            && var p := Step(cfg, s2, ReadDone(0)).sent[0];
               p.first == cfg.chunk && p.data == f[..cfg.chunk]
  {
  }

  /** Continue with only a reply missing, and the reply first: chunk 1 goes out under the range of chunk 2. */
  lemma ReplyFirstMislabels(f: Bytes)
    requires |f| >= 12288
    ensures var s1 := Step(ROUTER, INITIAL, Select(Some(f), false, false));
            var s2 := Step(ROUTER, Step(ROUTER, s1, PauseClick), ReadDone(0));
            var s3 := Step(ROUTER, Step(ROUTER, s2, PauseClick), PutOk);
            var p := Step(ROUTER, s3, ReadDone(0)).sent;
            |p| == 2 && p[1].first == 8192 && p[1].data == f[4096..8192]
  {
  }

  /** Whichever slice is read first, the next PUT is the chunk of the file that is due. */
  ghost predicate NextPutIsDue(cfg: Config, t: State)
    requires t.file.Some?
  {
    forall i: nat | i < |t.slices| ::
      Step(cfg, t, ReadDone(i)).sent == t.sent + [Piece(t.file.value, cfg.chunk, |t.sent|)]
  }

  /** The next PUT is due whether a read ends or the missing reply comes first. */
  ghost predicate DueInBothOrders(cfg: Config, t: State)
    requires t.file.Some?
  {
    NextPutIsDue(cfg, t) && (t.waiting > 0 ==> NextPutIsDue(cfg, Step(cfg, t, PutOk)))
  }

  /**
   A click that starts a chunk while one is outstanding.  The next PUT is the chunk that is due, in either order
   of read and reply, exactly when the slice being read is empty, the file is empty, or only a reply is missing
   and will be ignored because the upload is still paused.
   */
  lemma EarlyClickMislabelsIff(cfg: Config, s: State, e: Event)
    requires Inv(cfg, s) && cfg.chunk > 0 && s.file.Some? && !Quiet(s)
    requires Enabled(s, e) && StartsChunk(s, e) && !e.Select?
    ensures Step(cfg, s, e).file == s.file
    ensures DueInBothOrders(cfg, Step(cfg, s, e)) <==>
      || (s.slices != [] && s.slices[0] == []) || s.file.value == []
      || (s.slices == [] && e.ConfirmOk? && s.pause && !s.cancel)
  {
    hide Tiling, Inv, Slice, Piece;
    if s.slices != [] {
      ReadingWhenClicked(cfg, s, e);
    } else {
      ReplyMissingWhenClicked(cfg, s, e);
    }
  }

  /** A slice is being read: its PUT has the right bytes, and the right range exactly when it is empty. */
  lemma ReadingWhenClicked(cfg: Config, s: State, e: Event)
    requires Inv(cfg, s) && cfg.chunk > 0 && s.file.Some? && s.slices != []
    requires Enabled(s, e) && StartsChunk(s, e) && !e.Select?
    ensures var t, f, n := Step(cfg, s, e), s.file.value, |s.sent|;
      && t.waiting == 0 && |t.slices| == 2 && t.file == s.file
      && Step(cfg, t, ReadDone(0)).sent[n].data == Piece(f, cfg.chunk, n).data
      && (NextPutIsDue(cfg, t) <==> s.slices[0] == [])
    ensures s.file.value == [] ==> s.slices[0] == []
  {
    hide Tiling;
    var n := |s.sent|;
    assert (n + 1) * cfg.chunk == n * cfg.chunk + cfg.chunk;
    var t := Step(cfg, s, e);
    var p := Piece(s.file.value, cfg.chunk, n);
    assert Step(cfg, t, ReadDone(0)).sent == s.sent + [Put(t.fromSize, t.toSize, s.slices[0])];
    assert (s.sent + [p])[n] == p;
  }

  /** Only a reply is missing: read first is fine, reply first moves or clears the offsets unless it is ignored. */
  lemma ReplyMissingWhenClicked(cfg: Config, s: State, e: Event)
    requires Inv(cfg, s) && cfg.chunk > 0 && s.file.Some? && s.slices == [] && !Quiet(s)
    requires Enabled(s, e) && StartsChunk(s, e) && !e.Select?
    ensures var t := Step(cfg, s, e);
      && t.waiting == 1 && |t.slices| == 1 && t.file == s.file && Step(cfg, t, PutOk).file == s.file
      && NextPutIsDue(cfg, t)
      && (NextPutIsDue(cfg, Step(cfg, t, PutOk)) <==> s.file.value == [] || (e.ConfirmOk? && s.pause && !s.cancel))
  {
    hide Tiling, Piece, Slice, NextPutIsDue;
    var t := Step(cfg, s, e);
    var f, n := s.file.value, |s.sent|;
    assert (n + 1) * cfg.chunk == n * cfg.chunk + cfg.chunk;
    assert Piece(f, cfg.chunk, n) == Put(t.fromSize, t.toSize, t.slices[0]) by { PieceIs(f, cfg.chunk, n); }
    FirstPut(cfg, t);
    ReplyFirst(cfg, t, n);
  }

  lemma PieceIs(f: Bytes, chunk: nat, k: nat)
    ensures var a, b := Min(k * chunk, |f|), Min((k + 1) * chunk, |f|);
      0 <= a <= b && Piece(f, chunk, k) == Put(a, b, Slice(f, a, b))
  {
    assert (k + 1) * chunk == k * chunk + chunk;
  }

  /** The state after such a click, when the reply comes before the read ends. */
  lemma ReplyFirst(cfg: Config, t: State, n: nat)
    requires cfg.chunk > 0 && t.file.Some? && t.total == |t.file.value| && |t.slices| == 1 && t.waiting == 1
    requires |t.sent| == n && Put(t.fromSize, t.toSize, t.slices[0]) == Piece(t.file.value, cfg.chunk, n)
    ensures Step(cfg, t, PutOk).file == t.file
    ensures NextPutIsDue(cfg, Step(cfg, t, PutOk)) <==> t.file.value == [] || (t.pause && !t.cancel)
  {
    hide Piece, Slice, NextPutIsDue;
    var f := t.file.value;
    var u := Step(cfg, t, PutOk);
    PieceIs(f, cfg.chunk, n);
    PieceIs(f, cfg.chunk, 0);
    assert 0 * cfg.chunk == 0 && (0 + 1) * cfg.chunk == cfg.chunk && (n + 1) * cfg.chunk == n * cfg.chunk + cfg.chunk;
    FirstPut(cfg, u);
  }

  /** What the first slice's PUT will be, and that it is all there is to check when there is one slice. */
  lemma FirstPut(cfg: Config, u: State)
    requires u.file.Some? && u.slices != []
    ensures var put, due := Put(u.fromSize, u.toSize, u.slices[0]), Piece(u.file.value, cfg.chunk, |u.sent|);
      && (put != due ==> !NextPutIsDue(cfg, u))
      && (put == due && |u.slices| == 1 ==> NextPutIsDue(cfg, u))
  {
    hide Piece;
    var put, due := Put(u.fromSize, u.toSize, u.slices[0]), Piece(u.file.value, cfg.chunk, |u.sent|);
    assert Step(cfg, u, ReadDone(0)).sent == u.sent + [put];
    assert (u.sent + [put])[|u.sent|] == put && (u.sent + [due])[|u.sent|] == due;
  }

  /** With no chunk outstanding, a selection starts at offset 0 exactly when it resets or nothing was sent before. */
  lemma SelectStartsAtZero(cfg: Config, s: State, f: Bytes)
    requires Quiet(s) && |f| > 0
    ensures Step(cfg, s, Select(Some(f), false, false)).fromSize == 0 <==> cfg.resetOnSelect || s.toSize == 0
  {
  }

  /** The shared uploader, paused after one chunk and given a file again: the new transfer skips its first chunk. */
  lemma SharedReselectSkips(f: Bytes)
    requires |f| > 65536
    ensures var s1 := Step(SHARED, INITIAL, Select(Some(f), false, false));
            var s2 := Step(SHARED, Step(SHARED, s1, PauseClick), ReadDone(0));
            var s3 := Step(SHARED, s2, PutOk);
            var s4 := Step(SHARED, s3, Select(Some(f), false, false));
            var p := Step(SHARED, s4, ReadDone(0)).sent;
            Quiet(s3) && |p| == 1 && p[0].first == 65536
  {
  }
}
