/** What the clicks on pause, continue, cancel and OK do to a whole transfer. */
module UploadClicks {
  import opened Basics
  import opened UploadProtocol

  /** What the browser still owes for an outstanding chunk. */
  function Owed(s: State): seq<Event> {
    if s.slices != [] then [ReadDone(0), PutOk] else if s.waiting > 0 then [PutOk] else []
  }

  lemma {:induction false} RunJoin(cfg: Config, s: State, first: seq<Event>, u: State, rest: seq<Event>, t: State)
    requires IsRun(cfg, s, first, u) && IsRun(cfg, u, rest, t)
    ensures IsRun(cfg, s, first + rest, t)
    decreases |first|
  {
    hide Step;
    if first == [] {
      assert first + rest == rest;
    } else {
      RunJoin(cfg, Step(cfg, s, first[0]), first[1..], u, rest, t);
      assert (first + rest)[1..] == first[1..] + rest;
    }
  }

  lemma OneEvent(cfg: Config, s: State, e: Event)
    requires Allowed(cfg, s, e)
    ensures IsRun(cfg, s, [e], Step(cfg, s, e))
  {
    hide Step, Allowed;
    assert [e][1..] == [];
  }

  /** A click-free run from a state with an outstanding chunk, up to the reply to that chunk. */
  lemma FirstEvents(cfg: Config, s: State, events: seq<Event>, t: State) returns (r: State, u: State)
    requires Inv(cfg, s) && !Quiet(s) && ClickFree(events) && IsRun(cfg, s, events, t)
    ensures r == if s.slices != [] then Step(cfg, s, ReadDone(0)) else s
    ensures r.slices == [] && r.waiting == 1 && u == Step(cfg, r, PutOk) && Inv(cfg, r) && Inv(cfg, u)
    ensures |events| < |Owed(s)| ==> events < Owed(s) && (t == s || t == r)
    ensures |events| >= |Owed(s)| ==> Owed(s) <= events && IsRun(cfg, u, events[|Owed(s)|..], t)
  {
    hide Inv, Step;
    OnlyOne(cfg, s);
    if s.slices != [] {
      StepKeepsInv(cfg, s, ReadDone(0));
      AfterRead(cfg, s);
      r := Step(cfg, s, ReadDone(0));
    } else {
      r := s;
    }
    StepKeepsInv(cfg, r, PutOk);
    u := Step(cfg, r, PutOk);
    if events != [] {
      assert events[0] == Owed(s)[0];
      if s.slices != [] && |events| > 1 {
        assert events[1..][0] == PutOk && events[1..][1..] == events[2..];
      }
    }
  }

  lemma OnlyOne(cfg: Config, s: State)
    requires Inv(cfg, s)
    ensures |s.slices| + s.waiting <= 1
  {
  }

  lemma AfterRead(cfg: Config, s: State)
    requires Inv(cfg, s) && s.slices != []
    ensures var r := Step(cfg, s, ReadDone(0));
      && r.slices == [] && r.waiting == 1 && |r.sent| == |s.sent| + 1
      && r.file == s.file && r.pause == s.pause && r.cancel == s.cancel && r.finished == s.finished
  {
  }

  /**
   A cancel while an upload runs or is paused: whatever the browser answers, no slice is queued beyond the
   outstanding chunk, or the one that a cancel while paused starts.  When all is answered the offsets are 0 and
   the transfer is filed as cancelled with exactly the first chunks of the file.
   */
  lemma CancelEndsTransfer(cfg: Config, s: State, events: seq<Event>, t: State)
    requires Inv(cfg, s) && s.file.Some? && Allowed(cfg, s, CancelClick) && (!Quiet(s) || s.pause)
    requires ClickFree(events) && IsRun(cfg, Step(cfg, s, CancelClick), events, t)
    ensures var f, n := s.file.value, |s.sent| + (if s.pause || s.slices != [] then 1 else 0);
      if Quiet(t)
      then t.fromSize == 0 == t.toSize && t.sent == []
        && t.finished == s.finished + [Transfer(Cancelled, f, Tiling(f, cfg.chunk, n))]
      else |t.sent| + |t.slices| == n && t.finished == s.finished
    ensures |events| <= 2 && (Quiet(t) <==> |events| == if s.pause || s.slices != [] then 2 else 1)
  {
    hide Tiling, Inv, Step, Piece, Slice, Allowed, ClickFree;
    var c := Step(cfg, s, CancelClick);
    StepKeepsInv(cfg, s, CancelClick);
    OnlyOne(cfg, s);
    AfterCancel(cfg, s);
    var r, u := FirstEvents(cfg, c, events, t);
    if c.slices != [] {
      AfterRead(cfg, c);
    }
    AfterReply(cfg, r);
    SentIsTiling(cfg, r);
    if |events| >= |Owed(c)| {
      NothingLeft(cfg, u, events, |Owed(c)|, t);
    }
  }

  lemma AfterCancel(cfg: Config, s: State)
    requires s.file.Some? && Allowed(cfg, s, CancelClick)
    ensures var c := Step(cfg, s, CancelClick);
      && c.cancel && c.waiting == s.waiting && c.file == s.file && c.sent == s.sent && c.finished == s.finished
      && |c.slices| == |s.slices| + (if s.pause then 1 else 0) && (s.pause ==> Quiet(s))
  {
    hide Slice;
  }

  lemma AfterReply(cfg: Config, r: State)
    requires r.file.Some? && r.slices == [] && r.waiting == 1
    ensures var u := Step(cfg, r, PutOk);
      if r.cancel
      then && Quiet(u) && u.fromSize == 0 == u.toSize && u.sent == []
           && u.finished == r.finished + [Transfer(Cancelled, r.file.value, r.sent)]
      else r.pause ==> u == r.(waiting := 0)
  {
    hide Slice;
  }

  lemma SentIsTiling(cfg: Config, s: State)
    requires Inv(cfg, s) && s.file.Some?
    ensures s.sent == Tiling(s.file.value, cfg.chunk, |s.sent|)
  {
  }

  /** When the first k events leave nothing outstanding, they are the whole click-free run. */
  lemma NothingLeft(cfg: Config, u: State, events: seq<Event>, k: nat, t: State)
    requires Quiet(u) && ClickFree(events) && k <= |events| && IsRun(cfg, u, events[k..], t)
    ensures |events| == k && t == u
  {
    NothingEnabled(u, events[k..]);
  }

  /** While paused nothing is queued beyond the outstanding chunk, and the offset stays where that chunk ends. */
  lemma PauseHolds(cfg: Config, s: State, events: seq<Event>, t: State)
    requires Inv(cfg, s) && s.file.Some? && !s.pause && !s.cancel && !Quiet(s)
    requires ClickFree(events) && IsRun(cfg, Step(cfg, s, PauseClick), events, t)
    ensures var n := |s.sent| + |s.slices|;
      && |t.sent| + |t.slices| == n && t.finished == s.finished && t.file == s.file && t.pause && !t.cancel
      && Min(n * cfg.chunk, |s.file.value|) == t.toSize && Inv(cfg, t)
    ensures events <= Owed(s) && (Quiet(t) <==> events == Owed(s))
  {
    hide Tiling, Inv, Step, Piece, Slice, Allowed, ClickFree;
    AfterPause(cfg, s);
    var c := Step(cfg, s, PauseClick);
    StepKeepsInv(cfg, s, PauseClick);
    OnlyOne(cfg, s);
    var r, u := FirstEvents(cfg, c, events, t);
    if c.slices != [] {
      AfterRead(cfg, c);
    }
    AfterReply(cfg, r);
    if |events| >= |Owed(c)| {
      NothingLeft(cfg, u, events, |Owed(c)|, t);
    }
    OffsetIs(cfg, t);
  }

  lemma AfterPause(cfg: Config, s: State)
    requires !s.pause
    ensures Allowed(cfg, s, PauseClick) && Step(cfg, s, PauseClick) == s.(pause := true)
  {
  }

  /** The offset is where the chunks sent, and the one that is being read, end. */
  lemma OffsetIs(cfg: Config, t: State)
    requires Inv(cfg, t) && t.file.Some?
    ensures Min((|t.sent| + |t.slices|) * cfg.chunk, |t.file.value|) == t.toSize
  {
    hide Slice, Tiling;
  }

  /** The browser's answers while paused are such a run. */
  lemma OwedRuns(cfg: Config, c: State) returns (t: State)
    requires Inv(cfg, c) && !Quiet(c) && c.pause && !c.cancel
    ensures IsRun(cfg, c, Owed(c), t) && ClickFree(Owed(c)) && Quiet(t)
  {
    hide Inv, Tiling, Piece;
    OnlyOne(cfg, c);
    var r := c;
    if c.slices != [] {
      AfterRead(cfg, c);
      r := Step(cfg, c, ReadDone(0));
      OneEvent(cfg, c, ReadDone(0));
    }
    t := Step(cfg, r, PutOk);
    OneEvent(cfg, r, PutOk);
    if c.slices != [] {
      RunJoin(cfg, c, [ReadDone(0)], r, [PutOk], t);
      assert [ReadDone(0)] + [PutOk] == [ReadDone(0), PutOk];
    }
  }

  /**
   Pause, the answers that are outstanding, continue, and no further click: the transfer completes with the PUTs of
   an upload without a pause, or with one more, empty one when the pause came during the last chunk.
   */
  lemma PausedUploadFinishes(cfg: Config, s: State) returns (events: seq<Event>, t: State)
    requires Inv(cfg, s) && s.file.Some? && !s.pause && !s.cancel && !Quiet(s) && cfg.chunk > 0
    ensures var f, n := s.file.value, |s.sent| + |s.slices|;
            var all := if n < Ceil(|f|, cfg.chunk) then Ceil(|f|, cfg.chunk) else n + 1;
      && events == [PauseClick] + Owed(s) + [PauseClick] + Rounds(all - n)
      && IsRun(cfg, s, events, t) && Quiet(t) && t.fromSize == 0 == t.toSize
      && t.finished == s.finished + [Transfer(Complete, f, Tiling(f, cfg.chunk, all))]
  {
    hide Tiling, Slice, Ceil, Inv, IsRun;
    var f, n := s.file.value, |s.sent| + |s.slices|;
    var c := Step(cfg, s, PauseClick);
    StepKeepsInv(cfg, s, PauseClick);
    var d := OwedRuns(cfg, c);
    PauseHolds(cfg, s, Owed(c), d);
    var g := Step(cfg, d, PauseClick);
    StepKeepsInv(cfg, d, PauseClick);
    OneEvent(cfg, s, PauseClick);
    OneEvent(cfg, d, PauseClick);
    RunJoin(cfg, s, [PauseClick], c, Owed(s), d);
    RunJoin(cfg, s, [PauseClick] + Owed(s), d, [PauseClick], g);
    CeilBounds(|f|, cfg.chunk, n);
    var rest: seq<Event>;
    if n < Ceil(|f|, cfg.chunk) {
      rest := Rounds(Ceil(|f|, cfg.chunk) - n);
      t := RoundsFinish(cfg, g, Ceil(|f|, cfg.chunk) - n);
    } else {
      rest := Rounds(1);
      t := LastRound(cfg, g, n);
    }
    events := [PauseClick] + Owed(s) + [PauseClick] + rest;
    RunJoin(cfg, s, [PauseClick] + Owed(s) + [PauseClick], g, rest, t);
  }

  lemma LastRound(cfg: Config, g: State, n: nat) returns (t: State)
    requires Inv(cfg, g) && g.file.Some? && |g.slices| == 1 && !g.pause && !g.cancel && |g.sent| == n
    requires n * cfg.chunk >= |g.file.value|
    ensures IsRun(cfg, g, Rounds(1), t) && Quiet(t) && t.fromSize == 0 == t.toSize
    ensures t.finished == g.finished + [Transfer(Complete, g.file.value, Tiling(g.file.value, cfg.chunk, n + 1))]
  {
    hide Inv, Tiling, Step, Allowed, Quiet;
    var r;
    r, t := OneRound(cfg, g);
    assert (n + 1) * cfg.chunk == n * cfg.chunk + cfg.chunk;
    RoundRuns(cfg, g, r, t, [], t);
    RoundsAre(1);
    RoundsAre(0);
  }

  /** Which selections start a chunk, ask first, or do nothing. */
  lemma SelectionOutcome(cfg: Config, s: State, chosen: Option<Bytes>, nameTooLong: bool, nameTaken: bool)
    requires Quiet(s)
    ensures var u := Step(cfg, s, Select(chosen, nameTooLong, nameTaken));
      && (u.askConfirm <==> cfg.resetOnSelect && chosen.Some? && chosen.value != [] && !nameTooLong && nameTaken)
      && (u.slices != [] <==>
           chosen.Some? && (cfg.resetOnSelect ==> chosen.value != [] && !nameTooLong && !nameTaken))
      && u.waiting == 0 && |u.slices| <= 1 && u.file == chosen && !u.pause && !u.cancel && u.finished == s.finished
  {
  }

  /** OK answers the question once: it starts one chunk of the chosen file, and asks no more. */
  lemma ConfirmOutcome(cfg: Config, s: State)
    requires Enabled(s, ConfirmOk)
    ensures var u := Step(cfg, s, ConfirmOk);
      && !Enabled(u, ConfirmOk) && u.file == s.file && u.pause == s.pause && u.cancel == s.cancel
      && |u.slices| == |s.slices| + (if s.file.Some? then 1 else 0)
  {
  }

  /** Whatever was going on before, the router's uploader starts a selected file with its first 4096 bytes. */
  lemma RouterSelectsAfresh(s: State, f: Bytes)
    requires |f| > 0
    ensures var u := Step(ROUTER, s, Select(Some(f), false, false));
      && u.fromSize == 0 && u.toSize == (if |f| < 4096 then |f| else 4096)
      && u.slices == s.slices + [f[..u.toSize]]
  {
  }

  /** A selection whose name is taken, then OK, then no further click: the whole file goes up. */
  lemma ConfirmedUploadFinishes(cfg: Config, s: State, f: Bytes) returns (t: State)
    requires Inv(cfg, s) && Quiet(s) && cfg.chunk > 0 && cfg.resetOnSelect && |f| > 0
    ensures IsRun(cfg, s, [Select(Some(f), false, true), ConfirmOk] + Rounds(Ceil(|f|, cfg.chunk)), t)
    ensures Quiet(t) && t.fromSize == 0 == t.toSize
    ensures t.finished == s.finished + [Transfer(Complete, f, Tiling(f, cfg.chunk, Ceil(|f|, cfg.chunk)))]
  {
    hide Inv, Tiling, Ceil, IsRun, Slice;
    var e := Select(Some(f), false, true);
    var u := Step(cfg, s, e);
    StepKeepsInv(cfg, s, e);
    var v := Step(cfg, u, ConfirmOk);
    StepKeepsInv(cfg, u, ConfirmOk);
    assert 0 * cfg.chunk == 0;
    t := RoundsFinish(cfg, v, Ceil(|f|, cfg.chunk));
    OneEvent(cfg, s, e);
    OneEvent(cfg, u, ConfirmOk);
    RunJoin(cfg, s, [e], u, [ConfirmOk], v);
    assert [e] + [ConfirmOk] == [e, ConfirmOk];
    RunJoin(cfg, s, [e, ConfirmOk], v, Rounds(Ceil(|f|, cfg.chunk)), t);
  }
}
