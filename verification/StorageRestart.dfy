/**
 The open handle is only a cache: its size and day decide rotation, and name archives,
 exactly as the file on disk would, so closing or restarting is never observable.
 */
module StorageRestart {
  import opened Text
  import opened Clock
  import opened Storage
  import opened StorageConservation

  /** The cached size and day are those of the file. */
  predicate Coherent(cfg: Config, s: Sink) {
    && Valid(cfg, s)
    && (s.open ==>
          var f := s.dir[cfg.path];
          s.size == Bytes(f.records) && s.size > 0 && (cfg.rotateDaily ==> s.day == f.modDay))
  }

  /** The calls made on one of the two paths alone, or whose failure leaves the cached size behind. */
  const TELLTALE: set<Op> := {CloseOp, StatActiveOp, OpenOp, StatOpenedOp, WriteOp}

  /** Only the calls of the rename loop and the fsync may fail. */
  predicate Benign(faults: set<Op>) {
    faults !! TELLTALE
  }

  /** The store without the handle. */
  predicate SameStore(s: Sink, t: Sink) {
    s.dir == t.dir && s.archives == t.archives
  }

  lemma RotatePathFrees(cfg: Config, s: Sink, stamp: string, faults: set<Op>)
    requires RotatePath(cfg, s, stamp, faults).error == None
    ensures cfg.path !in RotatePath(cfg, s, stamp, faults).sink.dir
  {
    FreeNameIsFree(s.dir, RotatedPath(cfg.path, stamp), 0, faults);
  }

  /** The two decision procedures agree on whether to rotate and on the stamp. */
  lemma SameDecision(cfg: Config, s: Sink, now: Time, n: nat)
    requires Coherent(cfg, s) && s.open
    ensures var f := s.dir[cfg.path];
            && DayRuleCached(cfg, s, now) == DayRuleOnDisk(cfg, f, now)
            && SizeRuleCached(cfg, s, n) == SizeRuleOnDisk(cfg, f, n)
            && (DayRuleCached(cfg, s, now) ==>
                  ArchiveStamp(s.day, now, true) == ArchiveStamp(f.modDay, now, true))
  {
  }

  lemma EnsureWriterIgnoresHandle(cfg: Config, s: Sink, now: Time, n: nat, faults: set<Op>)
    requires Coherent(cfg, s) && Benign(faults)
    ensures var a := EnsureWriter(cfg, s, now, n, faults);
            var b := EnsureWriter(cfg, Closed(s), now, n, faults);
            && a.error == b.error && SameStore(a.sink, b.sink)
            && (a.error.None? ==> WritableBy(cfg, a.sink, now) && WritableBy(cfg, b.sink, now))
            && (a.error.Some? ==> !a.sink.open && !b.sink.open)
  {
    OpenedIsWritable(cfg, Closed(s), now, n, faults);
    if s.open {
      SameDecision(cfg, s, now, n);
      if DayRuleCached(cfg, s, now) || SizeRuleCached(cfg, s, n) {
        var stamp := ArchiveStamp(s.day, now, DayRuleCached(cfg, s, now));
        var r := RotatePath(cfg, Closed(s), stamp, faults);
        assert Rotate(cfg, s, stamp, faults) == r;
        if r.error.None? {
          RotatePathFrees(cfg, Closed(s), stamp, faults);
        }
      }
    }
  }

  /** A handle just checked: its size is the file's, and appending today keeps its day right. */
  predicate WritableBy(cfg: Config, s: Sink, now: Time) {
    && Valid(cfg, s) && s.open
    && s.size == Bytes(s.dir[cfg.path].records)
    && (cfg.rotateDaily ==> s.day == DayKey(now))
  }

  lemma OpenedIsWritable(cfg: Config, s: Sink, now: Time, n: nat, faults: set<Op>)
    requires Valid(cfg, s) && !s.open && Benign(faults)
    ensures var w := OpenFromDisk(cfg, s, now, n, faults);
            && (w.error.None? ==> WritableBy(cfg, w.sink, now))
            && (w.error.Some? ==> w.sink == s)
  {
    OpenFromDiskOpens(cfg, s, now, n, faults);
  }

  lemma AppendCoheres(cfg: Config, s: Sink, rec: Record, now: Time)
    requires WritableBy(cfg, s, now) && rec.written == now && rec.line != ""
    ensures Coherent(cfg, Append(cfg, s, rec))
  {
  }

  lemma WriteIgnoresHandle(cfg: Config, s: Sink, req: Request)
    requires Coherent(cfg, s) && Benign(req.faults)
    ensures var a := Write(cfg, s, req);
            var b := Write(cfg, Closed(s), req);
            && a.error == b.error && SameStore(a.sink, b.sink)
            && Coherent(cfg, a.sink) && Coherent(cfg, b.sink)
  {
    if Refusal(req).None? {
      var n := |Line(req)|;
      EnsureWriterOpens(cfg, s, req.now, n, req.faults);
      EnsureWriterOpens(cfg, Closed(s), req.now, n, req.faults);
      EnsureWriterIgnoresHandle(cfg, s, req.now, n, req.faults);
      var a := EnsureWriter(cfg, s, req.now, n, req.faults);
      var b := EnsureWriter(cfg, Closed(s), req.now, n, req.faults);
      if a.error.None? {
        AppendCoheres(cfg, a.sink, RecordOf(req), req.now);
        AppendCoheres(cfg, b.sink, RecordOf(req), req.now);
      }
    }
  }

  // ----- whole runs -----

  function Writes(events: seq<Event>): seq<Request> {
    if events == [] then []
    else
      var e := events[|events| - 1];
      Writes(events[..|events| - 1]) + if e.WriteEvent? then [e.req] else []
  }

  /** The reference sink: it keeps nothing between calls and decides from the disk alone. */
  function StatelessRun(cfg: Config, s: Sink, reqs: seq<Request>): (r: Sink)
    requires Valid(cfg, s)
    ensures Valid(cfg, r)
  {
    if reqs == [] then Closed(s)
    else
      Closed(Next(cfg, StatelessRun(cfg, s, reqs[..|reqs| - 1]), WriteEvent(reqs[|reqs| - 1])).sink)
  }

  function StatelessAnswers(cfg: Config, s: Sink, reqs: seq<Request>): seq<Option<WriteError>>
    requires Valid(cfg, s)
  {
    if reqs == [] then []
    else
      var before := reqs[..|reqs| - 1];
      StatelessAnswers(cfg, s, before) +
      [Next(cfg, StatelessRun(cfg, s, before), WriteEvent(reqs[|reqs| - 1])).error]
  }

  predicate AllBenign(reqs: seq<Request>) {
    forall i :: 0 <= i < |reqs| ==> Benign(reqs[i].faults)
  }

  lemma NextIgnoresHandle(cfg: Config, m: Sink, r: Sink, e: Event)
    requires Coherent(cfg, m) && r == Closed(m)
    requires e.WriteEvent? ==> Benign(e.req.faults)
    ensures Coherent(cfg, Next(cfg, m, e).sink)
    ensures e.WriteEvent? ==>
              && Closed(Next(cfg, m, e).sink) == Closed(Next(cfg, r, e).sink)
              && Next(cfg, m, e).error == Next(cfg, r, e).error
    ensures e.CloseEvent? ==> Closed(Next(cfg, m, e).sink) == r
  {
    if e.WriteEvent? {
      WriteIgnoresHandle(cfg, m, e.req);
    }
  }

  /** Any history of writes and closes refines the reference sink on the writes alone. */
  lemma {:induction false} HandleIsOnlyACache(cfg: Config, s: Sink, events: seq<Event>)
    requires Coherent(cfg, s) && AllBenign(Writes(events))
    ensures Coherent(cfg, Run(cfg, s, events))
    ensures Closed(Run(cfg, s, events)) == StatelessRun(cfg, s, Writes(events))
    ensures Answers(cfg, s, events) == StatelessAnswers(cfg, s, Writes(events))
  {
    if events != [] {
      var before := events[..|events| - 1];
      var e := events[|events| - 1];
      var w := Writes(before);
      assert AllBenign(w) by {
        assert forall i :: 0 <= i < |w| ==> w[i] == Writes(events)[i];
      }
      HandleIsOnlyACache(cfg, s, before);
      if e.WriteEvent? {
        assert Writes(events)[|w|] == e.req;
        assert Writes(events)[..|w|] == w;
      } else {
        assert Writes(events) == w;
      }
      NextIgnoresHandle(cfg, Run(cfg, s, before), StatelessRun(cfg, s, w), e);
    }
  }

  /**
   Restart transparency: two histories that differ only in where the sink was closed or the
   process restarted leave the same directory, name for name and line for line, and gave
   every write the same answer.
   */
  lemma RestartTransparency(cfg: Config, s: Sink, one: seq<Event>, two: seq<Event>)
    requires Coherent(cfg, s) && Writes(one) == Writes(two) && AllBenign(Writes(one))
    ensures Run(cfg, s, one).dir == Run(cfg, s, two).dir
    ensures Run(cfg, s, one).archives == Run(cfg, s, two).archives
    ensures Answers(cfg, s, one) == Answers(cfg, s, two)
  {
    HandleIsOnlyACache(cfg, s, one);
    HandleIsOnlyACache(cfg, s, two);
    assert Closed(Run(cfg, s, one)).dir == Closed(Run(cfg, s, two)).dir;
  }
}
