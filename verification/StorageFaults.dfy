/**
 Which failing system calls make a restart observable: exactly five of them, each with a
 history that shows it.
 */
module StorageFaults {
  import opened Text
  import opened Clock
  import opened Trajectory
  import opened Storage
  import opened StorageConservation
  import opened StorageRestart

  /** Two histories of the same writes from a process start, in which only calls of F fail. */
  predicate Comparable(F: set<Op>, cfg: Config, s: Sink, one: seq<Event>, two: seq<Event>) {
    && Valid(cfg, s) && !s.open
    && Writes(one) == Writes(two)
    && forall i :: 0 <= i < |Writes(one)| ==> Writes(one)[i].faults <= F
  }

  predicate Alike(cfg: Config, s: Sink, one: seq<Event>, two: seq<Event>)
    requires Valid(cfg, s)
  {
    && Run(cfg, s, one).dir == Run(cfg, s, two).dir
    && Run(cfg, s, one).archives == Run(cfg, s, two).archives
    && Answers(cfg, s, one) == Answers(cfg, s, two)
  }

  /** While only calls of F fail, no close and no restart can be told from the outside. */
  ghost predicate Transparent(F: set<Op>) {
    forall cfg, s, one, two :: Comparable(F, cfg, s, one, two) ==> Alike(cfg, s, one, two)
  }

  // ----- a history with one close -----

  lemma RunSnoc(cfg: Config, s: Sink, events: seq<Event>, e: Event)
    requires Valid(cfg, s)
    ensures Run(cfg, s, events + [e]) == Next(cfg, Run(cfg, s, events), e).sink
    ensures Answers(cfg, s, events + [e]) ==
            Answers(cfg, s, events) + if e.WriteEvent? then [Next(cfg, Run(cfg, s, events), e).error] else []
    ensures Writes(events + [e]) == Writes(events) + if e.WriteEvent? then [e.req] else []
  {
    assert (events + [e])[..|events|] == events;
  }

  function Straight(a: Request, b: Request): seq<Event> {
    [] + [WriteEvent(a)] + [WriteEvent(b)]
  }

  function Interrupted(a: Request, b: Request): seq<Event> {
    [] + [WriteEvent(a)] + [CloseEvent] + [WriteEvent(b)]
  }

  /** The two histories part only in how the second write finds the handle. */
  lemma OneClose(cfg: Config, s: Sink, a: Request, b: Request, m: Sink)
    requires Valid(cfg, s) && Valid(cfg, m) && m == Write(cfg, s, a).sink
    ensures Writes(Straight(a, b)) == Writes(Interrupted(a, b)) == [a, b]
    ensures Run(cfg, s, Straight(a, b)) == Next(cfg, m, WriteEvent(b)).sink
    ensures Run(cfg, s, Interrupted(a, b)) == Next(cfg, Closed(m), WriteEvent(b)).sink
    ensures Next(cfg, m, WriteEvent(b)).error != Next(cfg, Closed(m), WriteEvent(b)).error ==>
              Answers(cfg, s, Straight(a, b)) != Answers(cfg, s, Interrupted(a, b))
  {
    var first, second := WriteEvent(a), WriteEvent(b);
    RunSnoc(cfg, s, [], first);
    RunSnoc(cfg, s, [] + [first], second);
    RunSnoc(cfg, s, [] + [first], CloseEvent);
    RunSnoc(cfg, s, [] + [first] + [CloseEvent], second);
    assert Next(cfg, s, first).sink == m;
    var x, y := Answers(cfg, s, Straight(a, b)), Answers(cfg, s, Interrupted(a, b));
    assert x[1] == Next(cfg, m, second).error;
    assert y[1] == Next(cfg, Closed(m), second).error;
  }

  /** A pair of histories that a close tells apart. */
  lemma Refutes(op: Op, cfg: Config, s: Sink, a: Request, b: Request, m: Sink)
    requires Valid(cfg, s) && !s.open && Valid(cfg, m) && m == Write(cfg, s, a).sink
    requires a.faults <= {op} && b.faults <= {op}
    requires var x, y := Next(cfg, m, WriteEvent(b)), Next(cfg, Closed(m), WriteEvent(b));
             x.error != y.error || x.sink.archives != y.sink.archives
    ensures Comparable({op}, cfg, s, Straight(a, b), Interrupted(a, b))
    ensures !Alike(cfg, s, Straight(a, b), Interrupted(a, b))
  {
    OneClose(cfg, s, a, b, m);
  }

  // ----- the five witnesses -----

  /** A request whose line is two bytes long. */
  function Short(frame: SanitizedFrame, now: Time, faults: set<Op>): Request {
    Request(frame, Some("x"), false, now, faults)
  }

  const PATH := "f.jsonl"
  const EMPTY := Sink(map[], false, 0, "", [])

  /** The store after one line was written: with an open handle, or closed. */
  function OneLine(frame: SanitizedFrame, now: Time): Directory {
    map[PATH := File([RecordOf(Short(frame, now, {}))], DayKey(now))]
  }

  function AfterOne(frame: SanitizedFrame, now: Time): Sink {
    Sink(OneLine(frame, now), true, 2, DayKey(now), [])
  }

  lemma ShortIsAccepted(frame: SanitizedFrame, now: Time, faults: set<Op>)
    requires Safe(frame)
    ensures var req := Short(frame, now, faults);
            Refusal(req).None? && |Line(req)| == 2 && RecordOf(req) == RecordOf(Short(frame, now, {}))
  {
  }

  lemma BytesOne(rec: Record)
    ensures Bytes([rec]) == |rec.line|
  {
    assert [rec][..0] == [];
  }

  lemma FirstWrite(cfg: Config, frame: SanitizedFrame, now: Time)
    requires Safe(frame) && cfg.path == PATH && !cfg.rotateDaily
    ensures Write(cfg, EMPTY, Short(frame, now, {})) == Outcome(AfterOne(frame, now), None)
    ensures Valid(cfg, AfterOne(frame, now))
  {
    ShortIsAccepted(frame, now, {});
    var w := OpenActive(cfg, EMPTY, now, {}).sink;
    assert OpenFromDisk(cfg, EMPTY, now, 2, {}) == Outcome(w, None);
    assert w.dir[PATH].records + [RecordOf(Short(frame, now, {}))] == [RecordOf(Short(frame, now, {}))];
    assert Append(cfg, w, RecordOf(Short(frame, now, {}))).dir == OneLine(frame, now);
  }

  /** Without limits an open handle needs no stat and no open; a closed one needs both. */
  lemma StatOrOpenTells(frame: SanitizedFrame, now: Time, op: Op)
    requires Safe(frame) && op in {StatActiveOp, OpenOp}
    ensures var cfg := Config(PATH, 0, false, true);
            var m := AfterOne(frame, now);
            && Next(cfg, m, WriteEvent(Short(frame, now, {op}))).error == None
            && Next(cfg, Closed(m), WriteEvent(Short(frame, now, {op}))).error == Some(OpFailed(op))
  {
    var cfg := Config(PATH, 0, false, true);
    var m := AfterOne(frame, now);
    ShortIsAccepted(frame, now, {op});
    assert EnsureWriter(cfg, m, now, 2, {op}) == Outcome(m, None);
    assert OpenFromDisk(cfg, Closed(m), now, 2, {op}).error == Some(OpFailed(op));
  }

  /** The stamp's first name is free when the active file is alone. */
  lemma AloneRotates(cfg: Config, s: Sink, stamp: string, faults: set<Op>)
    requires s.dir.Keys == {cfg.path}
    requires faults !! {StatForRotateOp, StatArchiveOp(0), RenameOp}
    ensures RotatePath(cfg, s, stamp, faults) == Outcome(Rename(cfg, s, RotatedPath(cfg.path, stamp)), None)
  {
    ArchiveIsNotActive(cfg.path, stamp, 0);
  }

  /** Only an open handle has to be closed before it is rotated. */
  lemma CloseTells(frame: SanitizedFrame, now: Time)
    requires Safe(frame)
    ensures var cfg := Config(PATH, 1, false, true);
            var m := AfterOne(frame, now);
            && Next(cfg, m, WriteEvent(Short(frame, now, {CloseOp}))).error == Some(OpFailed(CloseOp))
            && Next(cfg, Closed(m), WriteEvent(Short(frame, now, {CloseOp}))).error == None
  {
    var cfg := Config(PATH, 1, false, true);
    var m := AfterOne(frame, now);
    ShortIsAccepted(frame, now, {CloseOp});
    BytesOne(m.dir[PATH].records[0]);
    AloneRotates(cfg, Closed(m), ArchiveStamp("", now, false), {CloseOp});
    assert EnsureWriter(cfg, m, now, 2, {CloseOp}).error == Some(OpFailed(CloseOp));
    assert OpenFromDisk(cfg, Closed(m), now, 2, {CloseOp}).error == None;
  }

  /** One write on a file that is alone: rotated away or not, by either rule. */
  lemma AloneWrites(cfg: Config, s: Sink, req: Request)
    requires Valid(cfg, s) && s.dir.Keys == {cfg.path} && s.archives == [] && !cfg.rotateDaily
    requires Refusal(req).None? && req.faults == {}
    ensures var n := |Line(req)|;
            var rotates := if s.open then SizeRuleCached(cfg, s, n) else SizeRuleOnDisk(cfg, s.dir[cfg.path], n);
            |Next(cfg, s, WriteEvent(req)).sink.archives| == if rotates then 1 else 0
  {
    var n := |Line(req)|;
    AloneRotates(cfg, Closed(s), ArchiveStamp(s.day, req.now, false), {});
    AloneRotates(cfg, s, ArchiveStamp("", req.now, false), {});
    var w := EnsureWriter(cfg, s, req.now, n, {});
    EnsureWriterOpens(cfg, s, req.now, n, {});
  }

  /** A failing write leaves an open handle on an empty file, which only the cached rule rotates. */
  lemma WriteTells(frame: SanitizedFrame, now: Time)
    requires Safe(frame)
    ensures var cfg := Config(PATH, 1, false, true);
            var m := Sink(map[PATH := File([], DayKey(now))], true, 0, DayKey(now), []);
            && Write(cfg, EMPTY, Short(frame, now, {WriteOp})).sink == m
            && |Next(cfg, m, WriteEvent(Short(frame, now, {}))).sink.archives| == 1
            && |Next(cfg, Closed(m), WriteEvent(Short(frame, now, {}))).sink.archives| == 0
  {
    var cfg := Config(PATH, 1, false, true);
    var m := Sink(map[PATH := File([], DayKey(now))], true, 0, DayKey(now), []);
    ShortIsAccepted(frame, now, {WriteOp});
    ShortIsAccepted(frame, now, {});
    assert OpenFromDisk(cfg, EMPTY, now, 2, {WriteOp}) == Outcome(m, None);
    AloneWrites(cfg, m, Short(frame, now, {}));
    AloneWrites(cfg, Closed(m), Short(frame, now, {}));
  }

  /** A failing stat on the opened file makes the cached size start at 0. */
  lemma StatOpenedTells(frame: SanitizedFrame, now: Time)
    requires Safe(frame)
    ensures var cfg := Config(PATH, 5, false, true);
            var s := Closed(AfterOne(frame, now));
            var m := Write(cfg, s, Short(frame, now, {StatOpenedOp})).sink;
            && Valid(cfg, s) && Valid(cfg, m)
            && |Next(cfg, m, WriteEvent(Short(frame, now, {}))).sink.archives| == 0
            && |Next(cfg, Closed(m), WriteEvent(Short(frame, now, {}))).sink.archives| == 1
  {
    var cfg := Config(PATH, 5, false, true);
    var s := Closed(AfterOne(frame, now));
    var rec := RecordOf(Short(frame, now, {}));
    ShortIsAccepted(frame, now, {StatOpenedOp});
    ShortIsAccepted(frame, now, {});
    BytesOne(rec);
    var w := OpenActive(cfg, s, now, {StatOpenedOp}).sink;
    assert OpenFromDisk(cfg, s, now, 2, {StatOpenedOp}) == Outcome(w, None);
    var m := Append(cfg, w, rec);
    assert Write(cfg, s, Short(frame, now, {StatOpenedOp})).sink == m;
    assert m.dir[PATH].records[..1] == [rec];
    assert Bytes(m.dir[PATH].records) == 4;
    assert m.dir.Keys == {PATH};
    AloneWrites(cfg, m, Short(frame, now, {}));
    AloneWrites(cfg, Closed(m), Short(frame, now, {}));
  }

  // ----- the exact condition -----

  lemma TelltaleTells(op: Op, frame: SanitizedFrame, now: Time)
    requires Safe(frame) && op in TELLTALE
    ensures exists cfg, s, one, two :: Comparable({op}, cfg, s, one, two) && !Alike(cfg, s, one, two)
  {
    var plain, faulty := Short(frame, now, {}), Short(frame, now, {op});
    var m := AfterOne(frame, now);
    match op
    case StatActiveOp =>
      FirstWrite(Config(PATH, 0, false, true), frame, now);
      StatOrOpenTells(frame, now, op);
      Refutes(op, Config(PATH, 0, false, true), EMPTY, plain, faulty, m);
    case OpenOp =>
      FirstWrite(Config(PATH, 0, false, true), frame, now);
      StatOrOpenTells(frame, now, op);
      Refutes(op, Config(PATH, 0, false, true), EMPTY, plain, faulty, m);
    case CloseOp =>
      FirstWrite(Config(PATH, 1, false, true), frame, now);
      CloseTells(frame, now);
      Refutes(op, Config(PATH, 1, false, true), EMPTY, plain, faulty, m);
    case WriteOp =>
      WriteTells(frame, now);
      Refutes(op, Config(PATH, 1, false, true), EMPTY, faulty, plain,
              Sink(map[PATH := File([], DayKey(now))], true, 0, DayKey(now), []));
    case StatOpenedOp =>
      StatOpenedTells(frame, now);
      Refutes(op, Config(PATH, 5, false, true), Closed(m), faulty, plain,
              Write(Config(PATH, 5, false, true), Closed(m), faulty).sink);
  }

  lemma BenignIsTransparent(F: set<Op>)
    requires Benign(F)
    ensures Transparent(F)
  {
    forall cfg, s, one, two | Comparable(F, cfg, s, one, two) ensures Alike(cfg, s, one, two) {
      RestartTransparency(cfg, s, one, two);
    }
  }

  /**
   Restart transparency, exactly: closes and restarts are unobservable over all configurations,
   starting directories and histories in which only calls of F fail if and only if F holds none
   of close, the first stat, open, the stat of the opened file, and write.
   */
  lemma TransparentExactly(F: set<Op>, frame: SanitizedFrame, now: Time)
    requires Safe(frame)
    ensures Transparent(F) <==> F !! {CloseOp, StatActiveOp, OpenOp, StatOpenedOp, WriteOp}
  {
    if Benign(F) {
      BenignIsTransparent(F);
    } else {
      var op :| op in F && op in TELLTALE;
      TelltaleTells(op, frame, now);
      var cfg, s, one, two :| Comparable({op}, cfg, s, one, two) && !Alike(cfg, s, one, two);
      assert Comparable(F, cfg, s, one, two);
    }
  }
}
