/**
 The durable guard of server/internal/auth/replay_sqlite.go: two tables, one transaction per
 call with a deferred rollback, and a failure that can strike any statement.
 */
module SqliteGuard {
  import opened Replay

  /** device_state and seen_frames with their primary keys. */
  datatype Tables = Tables(deviceState: map<string, nat>, seenFrames: set<(string, string)>)

  const EMPTY := Tables(map[], {})

  datatype Statement = Begin | SelectFrame | SelectSequence | InsertFrame | UpsertSequence

  /** A failing commit reports an error whether or not it reached the disk. */
  datatype Fault = NoFault | FailAt(at: Statement) | CommitFails(applied: bool)

  /** max_sequence is a signed 64-bit column; the driver refuses an argument above it. */
  const MAX_INTEGER: nat := 0x7fff_ffff_ffff_ffff

  const BOUNDS := BySequence(MAX_INTEGER)

  function MaxSequence(t: Tables, d: string): nat {
    if d in t.deviceState then t.deviceState[d] else 0
  }

  predicate Known(t: Tables, c: Call) {
    (c.device, c.frame) in t.seenFrames
  }

  /** Neither the frame id nor the sequence is used up. */
  predicate IsNew(t: Tables, c: Call) {
    !Known(t, c) && c.sequence > MaxSequence(t, c.device)
  }

  function Recorded(t: Tables, c: Call): Tables {
    Tables(t.deviceState[c.device := c.sequence], t.seenFrames + {(c.device, c.frame)})
  }

  /** The tables after the call and its answer, for a failure at any statement. */
  function Step(t: Tables, c: Call, fault: Fault): (Tables, Answer) {
    if IsMalformed(c) then (t, Malformed)
    else if fault == FailAt(Begin) || fault == FailAt(SelectFrame) then (t, StoreFailed)
    else if Known(t, c) then (t, Replayed)
    else if fault == FailAt(SelectSequence) then (t, StoreFailed)
    else if c.sequence <= MaxSequence(t, c.device) then (t, Replayed)
    else if fault == FailAt(InsertFrame) || fault == FailAt(UpsertSequence) then (t, StoreFailed)
    else if c.sequence > MAX_INTEGER then (t, StoreFailed)
    else if fault.CommitFails? then (if fault.applied then Recorded(t, c) else t, StoreFailed)
    else (Recorded(t, c), Accepted)
  }

  class SQLiteReplayGuard {
    /** What is on disk. */
    var db: Tables

    /** Opening creates the tables if they are missing and keeps them otherwise. */
    constructor (db: Tables)
      ensures this.db == db
    {
      this.db := db;
    }

    method CheckAndRecord(deviceId: string, frameId: string, sequence: nat, fault: Fault)
      returns (answer: Answer)
      modifies this
      ensures (db, answer) == Step(old(db), Call(deviceId, frameId, sequence), fault)
    {
      if deviceId == "" || frameId == "" {
        return Malformed;
      }
      if fault == FailAt(Begin) {
        return StoreFailed;
      }
      // Every return from here on drops tx, which is the deferred rollback.
      var tx := db;
      if fault == FailAt(SelectFrame) {
        return StoreFailed;
      }
      if (deviceId, frameId) in tx.seenFrames {
        return Replayed;
      }
      var maxSequence := 0;
      if fault == FailAt(SelectSequence) {
        return StoreFailed;
      }
      if deviceId in tx.deviceState {
        maxSequence := tx.deviceState[deviceId];
      }
      if sequence <= maxSequence {
        return Replayed;
      }
      if fault == FailAt(InsertFrame) {
        return StoreFailed;
      }
      tx := tx.(seenFrames := tx.seenFrames + {(deviceId, frameId)});
      if fault == FailAt(UpsertSequence) || sequence > MAX_INTEGER {
        return StoreFailed;
      }
      tx := tx.(deviceState := tx.deviceState[deviceId := sequence]);
      assert tx == Recorded(old(db), Call(deviceId, frameId, sequence));
      if fault.CommitFails? {
        if fault.applied {
          db := tx;
        }
        return StoreFailed;
      }
      db := tx;
      return Accepted;
    }
  }

  // ----- atomicity -----

  /**
   Rollback is total: the tables change only in a call that got as far as its commit, a
   success always means they did, and then they gain exactly the two rows of the call.
   */
  lemma FailureLeavesTables(t: Tables, c: Call, fault: Fault)
    ensures Step(t, c, fault).0 != t ==> fault == NoFault || fault == CommitFails(true)
    ensures Step(t, c, fault).1 == Accepted ==> fault == NoFault && Step(t, c, fault).0 == Recorded(t, c)
    ensures Step(t, c, fault).0 != t ==> Step(t, c, fault).1 in {Accepted, StoreFailed}
    ensures Step(t, c, fault).0 != t ==>
              Step(t, c, fault).0 == Recorded(t, c) && !Known(t, c) && c.sequence <= MAX_INTEGER
  {
    match fault
    case FailAt(at) =>
      match at {
        case Begin =>
        case SelectFrame =>
        case SelectSequence =>
        case InsertFrame =>
        case UpsertSequence =>
      }
    case NoFault =>
    case CommitFails(_) =>
  }

  /** Without a failure: accepted exactly when new and storable, and else the tables stay. */
  lemma StepExactly(t: Tables, c: Call)
    requires !IsMalformed(c)
    ensures Step(t, c, NoFault) ==
              if !IsNew(t, c) then (t, Replayed)
              else if c.sequence > MAX_INTEGER then (t, StoreFailed)
              else (Recorded(t, c), Accepted)
  {
  }

  /** A device has a device_state row exactly when it has a seen_frames row. */
  ghost predicate RowsPaired(t: Tables) {
    forall d :: d in t.deviceState <==> exists f :: (d, f) in t.seenFrames
  }

  lemma StepKeepsPairs(t: Tables, c: Call, fault: Fault)
    requires RowsPaired(t)
    ensures RowsPaired(Step(t, c, fault).0)
  {
  }

  // ----- runs with failures, reopens and pruning -----

  datatype Event =
    | CallEvent(call: Call, fault: Fault)
    | Reopen
    | Prune(rows: set<(string, string)>)

  function Next(t: Tables, e: Event): Tables {
    match e
    case CallEvent(c, fault) => Step(t, c, fault).0
    case Reopen => t
    case Prune(rows) => t.(seenFrames := t.seenFrames - rows)
  }

  function Run(t: Tables, events: seq<Event>): Tables {
    if events == [] then t else Next(Run(t, events[..|events| - 1]), events[|events| - 1])
  }

  /** The calls that were answered with success. */
  function AcceptedIn(t: Tables, events: seq<Event>): Log {
    if events == [] then []
    else
      var before := events[..|events| - 1];
      var e := events[|events| - 1];
      var log := AcceptedIn(t, before);
      if e.CallEvent? && Step(Run(t, before), e.call, e.fault).1 == Accepted then log + [e.call] else log
  }

  predicate NoPrune(events: seq<Event>) {
    forall i :: 0 <= i < |events| ==> !events[i].Prune?
  }

  lemma {:induction false} PairsSurviveRuns(t: Tables, events: seq<Event>)
    requires RowsPaired(t) && NoPrune(events)
    ensures RowsPaired(Run(t, events))
  {
    if events != [] {
      var before := events[..|events| - 1];
      var e := events[|events| - 1];
      PairsSurviveRuns(t, before);
      if e.CallEvent? {
        StepKeepsPairs(Run(t, before), e.call, e.fault);
      }
    }
  }

  /** An accepted call is remembered by device_state, whatever happens to seen_frames. */
  predicate SequenceKept(t: Tables, c: Call) {
    c.device in t.deviceState && c.sequence <= t.deviceState[c.device]
  }

  predicate SequencesRise(log: Log) {
    forall i, j :: 0 <= i < j < |log| && log[i].device == log[j].device ==>
      log[i].sequence < log[j].sequence
  }

  lemma SequenceStep(t: Tables, log: Log, e: Event)
    requires forall c :: c in log ==> SequenceKept(t, c)
    ensures forall c :: c in log ==> SequenceKept(Next(t, e), c)
    ensures e.CallEvent? && Step(t, e.call, e.fault).1 == Accepted ==>
              && SequenceKept(Next(t, e), e.call)
              && forall c :: c in log && c.device == e.call.device ==> c.sequence < e.call.sequence
  {
  }

  /**
   Sequence protection needs no seen_frames row: over any run, with failures, reopens and
   rows pruned arbitrarily between calls, one device's accepted sequences rise strictly.
   */
  lemma {:induction false} SequencesRiseDespitePruning(t: Tables, events: seq<Event>)
    ensures SequencesRise(AcceptedIn(t, events))
    ensures forall c :: c in AcceptedIn(t, events) ==> SequenceKept(Run(t, events), c)
  {
    if events != [] {
      var before := events[..|events| - 1];
      SequencesRiseDespitePruning(t, before);
      SequenceStep(Run(t, before), AcceptedIn(t, before), events[|events| - 1]);
    }
  }

  predicate FramesDiffer(log: Log) {
    forall i, j :: 0 <= i < j < |log| && log[i].device == log[j].device ==> log[i].frame != log[j].frame
  }

  lemma FrameStep(t: Tables, log: Log, e: Event)
    requires !e.Prune? && forall c :: c in log ==> Known(t, c)
    ensures forall c :: c in log ==> Known(Next(t, e), c)
    ensures e.CallEvent? && Step(t, e.call, e.fault).1 == Accepted ==>
              && Known(Next(t, e), e.call)
              && forall c :: c in log && c.device == e.call.device ==> c.frame != e.call.frame
  {
  }

  /**
   Without pruning no frame id is accepted twice either, across reopens, failures at any
   statement and commits whose outcome the caller never learned.
   */
  lemma {:induction false} NeverTwice(t: Tables, events: seq<Event>)
    requires NoPrune(events)
    ensures FramesDiffer(AcceptedIn(t, events)) && SequencesRise(AcceptedIn(t, events))
    ensures forall c :: c in AcceptedIn(t, events) ==> Known(Run(t, events), c)
  {
    if events != [] {
      var before := events[..|events| - 1];
      NeverTwice(t, before);
      SequencesRiseDespitePruning(t, events);
      FrameStep(Run(t, before), AcceptedIn(t, before), events[|events| - 1]);
    }
  }

  /** The hole that pruning reopens: a frame id comes back at a new sequence. */
  lemma PruningReopensFrameReuse(d: string, f: string, n: nat, m: nat)
    requires d != "" && f != "" && 0 < n < m <= MAX_INTEGER
    ensures var first, again := CallEvent(Call(d, f, n), NoFault), CallEvent(Call(d, f, m), NoFault);
            && AcceptedIn(EMPTY, [first, Prune({(d, f)}), again]) == [first.call, again.call]
            && AcceptedIn(EMPTY, [first, again]) == [first.call]
  {
    var first, again := CallEvent(Call(d, f, n), NoFault), CallEvent(Call(d, f, m), NoFault);
    var prune := Prune({(d, f)});
    assert [first][..0] == [];
    assert [first, again][..1] == [first];
    assert [first, prune][..1] == [first];
    assert [first, prune, again][..2] == [first, prune];
    assert Run(EMPTY, [first]) == Tables(map[d := n], {(d, f)});
    assert AcceptedIn(EMPTY, [first]) == [first.call];
    assert Run(EMPTY, [first, prune]) == Tables(map[d := n], {});
    assert AcceptedIn(EMPTY, [first, prune]) == [first.call];
  }

  // ----- the guard does what the log says -----

  /** The tables are a function of the log of recorded calls, and of nothing else. */
  ghost predicate Mirrors(t: Tables, log: Log) {
    && (forall d :: d in t.deviceState <==> Of(log, d) != [])
    && (forall d :: d in t.deviceState ==> t.deviceState[d] == LastSequence(Of(log, d)))
    && (forall d, f :: (d, f) in t.seenFrames <==> f in Frames(Of(log, d)))
  }

  lemma MirrorsDetermines(t: Tables, u: Tables, log: Log)
    requires Mirrors(t, log) && Mirrors(u, log)
    ensures t == u
  {
    assert t.deviceState == u.deviceState;
    forall r ensures r in t.seenFrames <==> r in u.seenFrames {
      var (d, f) := r;
      assert (d, f) in t.seenFrames <==> f in Frames(Of(log, d));
      assert (d, f) in u.seenFrames <==> f in Frames(Of(log, d));
    }
  }

  lemma StepAnswers(t: Tables, log: Log, c: Call)
    requires Mirrors(t, log) && WellFormed(log)
    ensures Step(t, c, NoFault).1 == AnswerOf(BOUNDS, log, c)
  {
  }

  lemma RecordedMirrors(t: Tables, log: Log, c: Call)
    requires Mirrors(t, log)
    ensures Mirrors(Recorded(t, c), log + [c])
  {
    var t' := Recorded(t, c);
    forall d ensures d in t'.deviceState <==> Of(log + [c], d) != []
             ensures d in t'.deviceState ==> t'.deviceState[d] == LastSequence(Of(log + [c], d)) {
      OfSnoc(log, c, d);
    }
    forall d, f ensures (d, f) in t'.seenFrames <==> f in Frames(Of(log + [c], d)) {
      OfSnoc(log, c, d);
      FramesSnoc(Of(log, d), c);
    }
  }

  lemma StepMirrors(t: Tables, log: Log, c: Call)
    requires Mirrors(t, log) && WellFormed(log)
    ensures Step(t, c, NoFault).1 == AnswerOf(BOUNDS, log, c)
    ensures Mirrors(Step(t, c, NoFault).0, Extend(BOUNDS, log, c))
  {
    StepAnswers(t, log, c);
    RecordedMirrors(t, log, c);
    FailureLeavesTables(t, c, NoFault);
  }

  function Calls(calls: seq<Call>): seq<Event> {
    seq(|calls|, i requires 0 <= i < |calls| => CallEvent(calls[i], NoFault))
  }

  function Answers(calls: seq<Call>): (r: seq<Answer>)
    ensures |r| == |calls|
  {
    if calls == [] then []
    else
      var before := calls[..|calls| - 1];
      Answers(before) + [Step(Run(EMPTY, Calls(before)), calls[|calls| - 1], NoFault).1]
  }

  /** Without failures the guard answers every history as its log prescribes. */
  lemma {:induction false} RunMirrors(calls: seq<Call>)
    ensures Answers(calls) == AnswersOf(BOUNDS, calls)
    ensures Mirrors(Run(EMPTY, Calls(calls)), LogOf(BOUNDS, calls))
  {
    if calls != [] {
      var before := calls[..|calls| - 1];
      var c := calls[|calls| - 1];
      RunMirrors(before);
      LogIsWellFormed(BOUNDS, before);
      assert Calls(calls)[..|calls| - 1] == Calls(before);
      assert Calls(calls)[|calls| - 1] == CallEvent(c, NoFault);
      StepMirrors(Run(EMPTY, Calls(before)), LogOf(BOUNDS, before), c);
    }
  }

  /** Deleting the rejected calls changes no remaining answer and not one row. */
  lemma ErasureInTables(calls: seq<Call>)
    ensures var kept := LogOf(BOUNDS, calls);
            && Run(EMPTY, Calls(kept)) == Run(EMPTY, Calls(calls))
            && |Answers(kept)| == |kept|
            && forall i :: 0 <= i < |kept| ==> Answers(kept)[i] == Accepted
  {
    var kept := LogOf(BOUNDS, calls);
    Erasure(BOUNDS, calls);
    RunMirrors(calls);
    RunMirrors(kept);
    MirrorsDetermines(Run(EMPTY, Calls(kept)), Run(EMPTY, Calls(calls)), kept);
  }
}
