/** The life of an iframe upload in jquery-form.js, as far as its callbacks go. */
module IframeUpload {

  /** What getDoc and the response tell when a callback runs. */
  datatype Doc =
    | Throws
    | NoDoc
    | Doc(isBlank: bool, domReady: bool, httpStatus: int, parsed: bool)

  datatype Reason = Normal | ClientTimeout | ServerAbort

  datatype State = State(aborted: bool, processed: bool, timedOut: bool, domCheckCount: int,
                         successes: nat, errors: nat, completes: nat, requeues: nat)

  const INITIAL := State(false, false, false, 50, 0, 0, 0, 0)

  datatype Event =
    | Load(doc: Doc)
    | Requeued(doc: Doc)
    | TimeoutFires(doc: Doc)
    | CheckStateFails(doc: Doc)
    | CallerAbort

  /** `xhr.abort`: one error and one complete, whatever happened before. */
  function Abort(s: State): State {
    s.(aborted := true, errors := s.errors + 1, completes := s.completes + 1)
  }

  predicate IsSuccess(timedOut: bool, httpStatus: int, parsed: bool) {
    if timedOut then false
    else if httpStatus != 0 then 200 <= httpStatus < 300 || httpStatus == 304
    else parsed
  }

  function Cb(s: State, reason: Reason, doc: Doc): State {
    if s.aborted || s.processed || doc.Throws? then s
    else if doc.NoDoc? || reason != Normal then Abort(s)
    else if doc.isBlank && !s.timedOut then s
    else if !s.timedOut && !doc.domReady && s.domCheckCount != 1 then
      s.(domCheckCount := s.domCheckCount - 1, requeues := s.requeues + 1)
    else
      var t := if !s.timedOut && !doc.domReady then s.(domCheckCount := s.domCheckCount - 1) else s;
      var u := if IsSuccess(s.timedOut, doc.httpStatus, doc.parsed) then t.(successes := t.successes + 1)
               else t.(errors := t.errors + 1);
      u.(completes := u.completes + 1, processed := true)
  }

  function Step(s: State, e: Event): State {
    match e
    case Load(doc) => Cb(s, Normal, doc)
    case Requeued(doc) => Cb(s, Normal, doc)
    case TimeoutFires(doc) => Cb(s.(timedOut := true), ClientTimeout, doc)
    case CheckStateFails(doc) => Cb(s, ServerAbort, doc)
    case CallerAbort => Abort(s)
  }

  class Upload {
    var aborted: bool
    var callbackProcessed: bool
    var timedOut: bool
    var domCheckCount: int
    ghost var successes: nat
    ghost var errors: nat
    ghost var completes: nat
    ghost var requeues: nat

    ghost function View(): State
      reads this
    {
      State(aborted, callbackProcessed, timedOut, domCheckCount, successes, errors, completes, requeues)
    }

    constructor ()
      ensures View() == INITIAL
    {
      aborted, callbackProcessed, timedOut, domCheckCount := false, false, false, 50;
      successes, errors, completes, requeues := 0, 0, 0, 0;
    }

    method AbortXhr()
      modifies this
      ensures View() == Abort(old(View()))
    {
      aborted := true;
      errors := errors + 1;
      completes := completes + 1;
    }

    method Callback(e: Reason, doc: Doc)
      modifies this
      ensures View() == Cb(old(View()), e, doc)
    {
      if aborted || callbackProcessed {
        return;
      }
      if doc.Throws? {
        return;
      }
      var reason := e;
      if doc.NoDoc? {
        reason := ServerAbort;
      }
      if reason == ClientTimeout {
        AbortXhr();
        return;
      } else if reason == ServerAbort {
        AbortXhr();
        return;
      }
      if doc.isBlank {
        if !timedOut {
          return;
        }
      }
      var success, status := true, 0;
      if timedOut {
        success := false;
      } else {
        if !doc.domReady {
          domCheckCount := domCheckCount - 1;
          if domCheckCount != 0 {
            requeues := requeues + 1;
            return;
          }
        }
        status := doc.httpStatus;
        if !doc.parsed {
          success := false;
        }
      }
      if status != 0 {
        success := (status >= 200 && status < 300) || status == 304;
      }
      if success {
        successes := successes + 1;
      } else {
        errors := errors + 1;
      }
      completes := completes + 1;
      callbackProcessed := true;
    }

    method OnTimeout(doc: Doc)
      modifies this
      ensures View() == Step(old(View()), TimeoutFires(doc))
    {
      timedOut := true;
      Callback(ClientTimeout, doc);
    }

    /** checkState could not read the frame. */
    method OnCheckStateFails(doc: Doc)
      modifies this
      ensures View() == Step(old(View()), CheckStateFails(doc))
    {
      Callback(ServerAbort, doc);
    }
  }

  // ---- Runs.

  function Run(s: State, events: seq<Event>): State
    decreases |events|
  {
    if events == [] then s else Run(Step(s, events[0]), events[1..])
  }

  predicate NoCallerAbort(events: seq<Event>) { forall i: nat | i < |events| :: !events[i].CallerAbort? }

  predicate Finished(s: State) { s.aborted || s.processed }

  ghost predicate Inv(s: State) {
    && s.completes == (if Finished(s) then 1 else 0)
    && s.successes + s.errors == s.completes
    && (s.aborted ==> s.successes == 0)
    && s.domCheckCount >= 0 && (!Finished(s) ==> s.domCheckCount >= 1)
    && s.requeues + (if s.domCheckCount == 0 then 1 else s.domCheckCount) <= 50
  }

  lemma StepKeepsInv(s: State, e: Event)
    requires Inv(s) && !e.CallerAbort?
    ensures Inv(Step(s, e))
    ensures Finished(s) ==> Step(s, e) == s.(timedOut := s.timedOut || e.TimeoutFires?)
  {
  }

  /** A status from 200 to 299 or 304, or without a status a response that could be read. */
  predicate Accepted(doc: Doc) {
    doc.Doc? && (if doc.httpStatus == 0 then doc.parsed else doc.httpStatus == 304 || 200 <= doc.httpStatus <= 299)
  }

  /** The document is not blank and its DOM is ready, or this is the last of 50 looks at it. */
  predicate Ready(s: State, doc: Doc) { doc.Doc? && !doc.isBlank && (doc.domReady || s.domCheckCount == 1) }

  /** Which events fire success, and which fire error. */
  lemma FiresIff(s: State, e: Event)
    ensures Step(s, e).successes > s.successes <==>
      (e.Load? || e.Requeued?) && !Finished(s) && !s.timedOut && Ready(s, e.doc) && Accepted(e.doc)
    ensures Step(s, e).errors > s.errors <==>
      || e.CallerAbort?
      || (!Finished(s) && !e.doc.Throws? &&
           (|| e.doc.NoDoc? || e.TimeoutFires? || e.CheckStateFails? || s.timedOut
            || (Ready(s, e.doc) && !Accepted(e.doc))))
  {
  }

  /** A document whose DOM never gets ready is looked at 50 times, the last time as it is. */
  lemma {:induction false} NeverReadyFires(doc: Doc, n: nat)
    requires doc.Doc? && !doc.isBlank && !doc.domReady && n <= 49
    ensures var t := RunLooks(doc, n);
      && t == INITIAL.(domCheckCount := 50 - n, requeues := n)
      && (n == 49 ==> Finished(Step(t, Requeued(doc))) && Step(t, Requeued(doc)).completes == 1)
  {
    if n > 0 {
      NeverReadyFires(doc, n - 1);
    }
  }

  /** The load event and n - 1 repetitions of its callback. */
  function RunLooks(doc: Doc, n: nat): State {
    if n == 0 then INITIAL else Step(RunLooks(doc, n - 1), if n == 1 then Load(doc) else Requeued(doc))
  }

  lemma {:induction false} RunKeepsInv(s: State, events: seq<Event>)
    requires Inv(s) && NoCallerAbort(events)
    ensures Inv(Run(s, events))
    ensures Finished(s) ==> Run(s, events) == s.(timedOut := Run(s, events).timedOut)
    decreases |events|
  {
    hide Step, Inv;
    if events != [] {
      StepKeepsInv(s, events[0]);
      RunKeepsInv(Step(s, events[0]), events[1..]);
    }
  }

  lemma InvCounts(t: State)
    requires Inv(t)
    ensures t.completes <= 1 && t.successes + t.errors == t.completes && !(t.successes > 0 && t.errors > 0)
    ensures (t.completes == 1 <==> Finished(t)) && t.requeues <= 49
  {
  }

  /** Without an abort by the caller: complete fires exactly once when finished, after one of success and error. */
  lemma CallbacksFireOnce(events: seq<Event>)
    requires NoCallerAbort(events)
    ensures var t := Run(INITIAL, events);
      && t.completes <= 1 && t.successes + t.errors == t.completes && !(t.successes > 0 && t.errors > 0)
      && (t.completes == 1 <==> Finished(t)) && t.requeues <= 49
  {
    hide Run, Inv, Step, Finished;
    StartInv();
    RunKeepsInv(INITIAL, events);
    InvCounts(Run(INITIAL, events));
  }

  /** Once finished, whatever arrives later fires nothing. */
  lemma LaterEventsIgnored(events: seq<Event>, later: seq<Event>)
    requires NoCallerAbort(events) && NoCallerAbort(later) && Finished(Run(INITIAL, events))
    ensures var t, u := Run(INITIAL, events), Run(Run(INITIAL, events), later);
      u.successes == t.successes && u.errors == t.errors && u.completes == t.completes && u.requeues == t.requeues
  {
    hide Run, Inv;
    StartInv();
    RunKeepsInv(INITIAL, events);
    RunKeepsInv(Run(INITIAL, events), later);
  }

  lemma StartInv()
    ensures Inv(INITIAL)
  {
  }

  // ---- Runs in which the caller aborts as well.

  /** The caller never aborts an upload that has finished. */
  predicate EarlyAborts(s: State, events: seq<Event>)
    decreases |events|
  {
    events == [] || ((events[0].CallerAbort? ==> !Finished(s)) && EarlyAborts(Step(s, events[0]), events[1..]))
  }

  predicate Succeeded(s: State) { s.processed && !s.aborted && s.successes > 0 }

  /** The caller never aborts an upload whose success callback has run. */
  predicate AbortsBeforeSuccess(s: State, events: seq<Event>)
    decreases |events|
  {
    events == [] || ((events[0].CallerAbort? ==> !Succeeded(s)) && AbortsBeforeSuccess(Step(s, events[0]), events[1..]))
  }

  /** What holds with aborts at any time. */
  predicate Counted(s: State) {
    && s.successes + s.errors == s.completes && s.successes <= 1
    && (Finished(s) <==> s.completes >= 1)
    && (s.successes == 1 ==> s.processed && (s.aborted <==> s.errors > 0))
  }

  lemma StartCounted()
    ensures Counted(INITIAL) && !Both(INITIAL) && INITIAL.completes <= 1
  {
    hide Step, Cb, Run, IsSuccess;
    FreshCounted(INITIAL);
  }

  lemma FreshCounted(s: State)
    requires !s.aborted && !s.processed && s.successes == 0 && s.errors == 0 && s.completes == 0
    ensures Counted(s) && !Both(s)
  {
  }

  lemma StepKeepsCounted(s: State, e: Event)
    requires Counted(s)
    ensures Counted(Step(s, e)) && Step(s, e).completes >= s.completes
    ensures Step(s, e).successes >= s.successes && Step(s, e).errors >= s.errors
    ensures Step(s, e).completes > 1 && s.completes <= 1 ==> e.CallerAbort? && Finished(s)
    ensures e.CallerAbort? && Finished(s) ==> Step(s, e).completes > 1
    ensures s.errors > 0 && s.successes == 0 ==> Step(s, e).successes == 0
  {
  }

  lemma {:induction false} CompletesAtMostOnceFrom(s: State, events: seq<Event>)
    requires Counted(s)
    ensures Counted(Run(s, events)) && Run(s, events).completes >= s.completes
    ensures s.completes <= 1 ==> (Run(s, events).completes <= 1 <==> EarlyAborts(s, events))
    decreases |events|
  {
    hide Step, Counted, Finished;
    if events != [] {
      StepKeepsCounted(s, events[0]);
      CompletesAtMostOnceFrom(Step(s, events[0]), events[1..]);
    }
  }

  /** Over all events, caller aborts included, complete fires at most once exactly when no abort comes after the end. */
  lemma CompletesAtMostOnceIff(events: seq<Event>)
    ensures Run(INITIAL, events).completes <= 1 <==> EarlyAborts(INITIAL, events)
  {
    hide *;
    StartCounted();
    CompletesAtMostOnceFrom(INITIAL, events);
  }

  predicate Both(s: State) { s.successes > 0 && s.errors > 0 }

  lemma StepKeepsBoth(s: State, e: Event)
    requires Counted(s)
    ensures Counted(Step(s, e))
    ensures Both(s) ==> Both(Step(s, e))
    ensures !Both(s) ==> (Both(Step(s, e)) <==> e.CallerAbort? && Succeeded(s))
  {
  }

  lemma {:induction false} BothStays(s: State, events: seq<Event>)
    requires Counted(s) && Both(s)
    ensures Both(Run(s, events))
    decreases |events|
  {
    hide Step, Counted, Both;
    if events != [] {
      StepKeepsBoth(s, events[0]);
      BothStays(Step(s, events[0]), events[1..]);
    }
  }

  lemma {:induction false} NeverBothFrom(s: State, events: seq<Event>)
    requires Counted(s) && !Both(s)
    ensures !Both(Run(s, events)) <==> AbortsBeforeSuccess(s, events)
    decreases |events|
  {
    hide Step, Counted, Both, Succeeded;
    if events != [] {
      var t := Step(s, events[0]);
      StepKeepsBoth(s, events[0]);
      if Both(t) {
        BothStays(t, events[1..]);
      } else {
        NeverBothFrom(t, events[1..]);
      }
    }
  }

  /** Over all events success and error never both fire exactly when no abort comes after a success. */
  lemma NeverBothIff(events: seq<Event>)
    ensures !Both(Run(INITIAL, events)) <==> AbortsBeforeSuccess(INITIAL, events)
  {
    hide *;
    StartCounted();
    NeverBothFrom(INITIAL, events);
  }

  /** A caller's abort after a success fires error and a second complete. */
  lemma CallerAbortFiresTwice(doc: Doc)
    requires doc.Doc? && !doc.isBlank && doc.domReady && doc.httpStatus == 200
    ensures var t := Run(INITIAL, [Load(doc), CallerAbort]);
      t.successes == 1 && t.errors == 1 && t.completes == 2
  {
    var e := [Load(doc), CallerAbort];
    assert e[1..] == [CallerAbort] && [CallerAbort][1..] == [];
  }
}
