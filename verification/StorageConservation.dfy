/**
 Rotation never loses, duplicates, reorders or overwrites a line, whichever
 operating-system calls fail and however often the sink is closed or restarted.
 */
module StorageConservation {
  import opened Text
  import opened Clock
  import opened Storage

  /** Archives are distinct files, none of them the active one. */
  predicate Tracked(cfg: Config, s: Sink) {
    && Distinct(s.archives)
    && cfg.path !in s.archives
    && forall a :: a in s.archives ==> a in s.dir
  }

  function ArchiveFiles(s: Sink): seq<seq<Record>>
    requires forall a :: a in s.archives ==> a in s.dir
  {
    seq(|s.archives|, i requires 0 <= i < |s.archives| => s.dir[s.archives[i]].records)
  }

  function ActiveRecords(cfg: Config, s: Sink): seq<Record> {
    if cfg.path in s.dir then s.dir[cfg.path].records else []
  }

  function Concat(files: seq<seq<Record>>): seq<Record> {
    if files == [] then [] else Concat(files[..|files| - 1]) + files[|files| - 1]
  }

  /** Everything stored: the archives in rotation order, then the active file. */
  function AllRecords(cfg: Config, s: Sink): seq<Record>
    requires Tracked(cfg, s)
  {
    Concat(ArchiveFiles(s)) + ActiveRecords(cfg, s)
  }

  /**
   What a step may do to the directory: leave every file but the active one as it is,
   and add archives under names that no file had.
   */
  predicate Grows(cfg: Config, s: Sink, t: Sink) {
    && Tracked(cfg, t)
    && s.archives <= t.archives
    && (forall p :: p in s.dir && p != cfg.path ==> p in t.dir && t.dir[p] == s.dir[p])
    && (forall p :: p in t.dir ==> p in s.dir || p == cfg.path || p in t.archives)
    && (forall i :: |s.archives| <= i < |t.archives| ==> t.archives[i] !in s.dir)
  }

  lemma GrowsTransitive(cfg: Config, s: Sink, t: Sink, u: Sink)
    requires Grows(cfg, s, t) && Grows(cfg, t, u)
    ensures Grows(cfg, s, u)
  {
  }

  // ----- archive names -----

  /** A rotated name is longer than the active name, so it is never the active file. */
  lemma ArchiveIsNotActive(base: string, stamp: string, i: nat)
    ensures |Candidate(RotatedPath(base, stamp), i)| > |base|
    ensures Candidate(RotatedPath(base, stamp), i) != base
  {
  }

  lemma {:induction false} FreeNameIsFree(dir: Directory, dest: string, i: nat, faults: set<Op>)
    ensures var r := FreeName(dir, dest, i, faults);
            && (r.Ok? ==> r.value !in dir && exists k :: i <= k < ARCHIVE_NAMES && r.value == Candidate(dest, k))
            && (r == Err(NoFreeName) ==> forall k :: i <= k < ARCHIVE_NAMES ==> Candidate(dest, k) in dir)
    decreases ARCHIVE_NAMES - i
  {
    if i < ARCHIVE_NAMES {
      FreeNameIsFree(dir, dest, i + 1, faults);
    }
  }

  // ----- one step -----

  lemma RotatePathConserves(cfg: Config, s: Sink, stamp: string, faults: set<Op>)
    requires Tracked(cfg, s)
    ensures var t := RotatePath(cfg, s, stamp, faults).sink;
            Grows(cfg, s, t) && AllRecords(cfg, t) == AllRecords(cfg, s)
  {
    var t := RotatePath(cfg, s, stamp, faults).sink;
    if t != s {
      var dest := RotatedPath(cfg.path, stamp);
      FreeNameIsFree(s.dir, dest, 0, faults);
      var name := FreeName(s.dir, dest, 0, faults).value;
      var k :| 0 <= k < ARCHIVE_NAMES && name == Candidate(dest, k);
      ArchiveIsNotActive(cfg.path, stamp, k);
      RenameConserves(cfg, s, name);
    }
  }

  lemma RenameConserves(cfg: Config, s: Sink, name: string)
    requires Tracked(cfg, s) && cfg.path in s.dir
    requires name !in s.dir
    ensures var t := Rename(cfg, s, name);
            Grows(cfg, s, t) && AllRecords(cfg, t) == AllRecords(cfg, s)
  {
    var t := Rename(cfg, s, name);
    var files := ArchiveFiles(t);
    assert files[..|files| - 1] == ArchiveFiles(s);
  }

  lemma SameFilesConserve(cfg: Config, s: Sink, t: Sink)
    requires Tracked(cfg, s)
    requires t.archives == s.archives
    requires t.dir == s.dir || (cfg.path !in s.dir && exists d :: t.dir == s.dir[cfg.path := File([], d)])
    ensures Grows(cfg, s, t) && AllRecords(cfg, t) == AllRecords(cfg, s)
  {
    assert ArchiveFiles(t) == ArchiveFiles(s);
  }

  lemma OpenFromDiskConserves(cfg: Config, s: Sink, now: Time, n: nat, faults: set<Op>)
    requires Tracked(cfg, s)
    ensures var t := OpenFromDisk(cfg, s, now, n, faults).sink;
            Grows(cfg, s, t) && AllRecords(cfg, t) == AllRecords(cfg, s)
  {
    if StatActiveOp in faults {
    } else if cfg.path !in s.dir {
      OpenActiveConserves(cfg, s, now, faults);
    } else {
      var f := s.dir[cfg.path];
      OpenActiveConserves(cfg, s, now, faults);
      OpenAfterConserves(cfg, s, ArchiveStamp(f.modDay, now, true), now, faults);
      OpenAfterConserves(cfg, s, ArchiveStamp("", now, false), now, faults);
    }
  }

  lemma OpenAfterConserves(cfg: Config, s: Sink, stamp: string, now: Time, faults: set<Op>)
    requires Tracked(cfg, s)
    ensures var t := OpenAfter(cfg, RotatePath(cfg, s, stamp, faults), now, faults).sink;
            Grows(cfg, s, t) && AllRecords(cfg, t) == AllRecords(cfg, s)
  {
    var r := RotatePath(cfg, s, stamp, faults).sink;
    RotatePathConserves(cfg, s, stamp, faults);
    OpenActiveConserves(cfg, r, now, faults);
    GrowsTransitive(cfg, s, r, OpenActive(cfg, r, now, faults).sink);
  }

  lemma OpenActiveConserves(cfg: Config, s: Sink, now: Time, faults: set<Op>)
    requires Tracked(cfg, s)
    ensures var t := OpenActive(cfg, s, now, faults).sink;
            Grows(cfg, s, t) && AllRecords(cfg, t) == AllRecords(cfg, s)
  {
    SameFilesConserve(cfg, s, OpenActive(cfg, s, now, faults).sink);
  }

  lemma RotateConserves(cfg: Config, s: Sink, stamp: string, faults: set<Op>)
    requires Tracked(cfg, s)
    ensures var t := Rotate(cfg, s, stamp, faults).sink;
            Grows(cfg, s, t) && AllRecords(cfg, t) == AllRecords(cfg, s)
  {
    var c := CloseFile(s, faults);
    SameFilesConserve(cfg, s, c.sink);
    RotatePathConserves(cfg, c.sink, stamp, faults);
    GrowsTransitive(cfg, s, c.sink, RotatePath(cfg, c.sink, stamp, faults).sink);
  }

  lemma EnsureWriterConserves(cfg: Config, s: Sink, now: Time, n: nat, faults: set<Op>)
    requires Tracked(cfg, s)
    ensures var t := EnsureWriter(cfg, s, now, n, faults).sink;
            Grows(cfg, s, t) && AllRecords(cfg, t) == AllRecords(cfg, s)
  {
    if !s.open {
      OpenFromDiskConserves(cfg, s, now, n, faults);
    } else {
      var stamp := ArchiveStamp(s.day, now, DayRuleCached(cfg, s, now));
      var r := Rotate(cfg, s, stamp, faults).sink;
      RotateConserves(cfg, s, stamp, faults);
      OpenFromDiskConserves(cfg, r, now, n, faults);
      GrowsTransitive(cfg, s, r, OpenFromDisk(cfg, r, now, n, faults).sink);
    }
  }

  lemma AppendConserves(cfg: Config, s: Sink, rec: Record)
    requires Tracked(cfg, s) && cfg.path in s.dir
    ensures var t := Append(cfg, s, rec);
            Grows(cfg, s, t) && AllRecords(cfg, t) == AllRecords(cfg, s) + [rec]
  {
    assert ArchiveFiles(Append(cfg, s, rec)) == ArchiveFiles(s);
  }

  /** The line a call adds to the store. */
  function LandedRecord(req: Request, e: Option<WriteError>): seq<Record> {
    if req.encoded.Some? && Landed(e) then [RecordOf(req)] else []
  }

  /**
   One call: its line is appended at the very end of the store exactly when the call
   succeeds or only its fsync fails; in every other case the store reads the same.
   */
  lemma WriteConserves(cfg: Config, s: Sink, req: Request)
    requires Valid(cfg, s) && Tracked(cfg, s)
    ensures var o := Write(cfg, s, req);
            && Grows(cfg, s, o.sink)
            && AllRecords(cfg, o.sink) == AllRecords(cfg, s) + LandedRecord(req, o.error)
  {
    if Refusal(req).None? {
      var n := |Line(req)|;
      var w := EnsureWriter(cfg, s, req.now, n, req.faults);
      EnsureWriterConserves(cfg, s, req.now, n, req.faults);
      EnsureWriterOpens(cfg, s, req.now, n, req.faults);
      EnsureWriterError(cfg, s, req.now, n, req.faults);
      if w.error.None? {
        WriteLineConserves(cfg, s, w.sink, req);
      }
    }
  }

  lemma WriteLineConserves(cfg: Config, s: Sink, w: Sink, req: Request)
    requires Tracked(cfg, s) && Grows(cfg, s, w) && AllRecords(cfg, w) == AllRecords(cfg, s)
    requires cfg.path in w.dir && req.encoded.Some?
    ensures var o := WriteLine(cfg, w, RecordOf(req), req.faults);
            && Grows(cfg, s, o.sink)
            && AllRecords(cfg, o.sink) == AllRecords(cfg, s) + LandedRecord(req, o.error)
  {
    AppendConserves(cfg, w, RecordOf(req));
    GrowsTransitive(cfg, s, w, Append(cfg, w, RecordOf(req)));
  }

  lemma EnsureWriterError(cfg: Config, s: Sink, now: Time, n: nat, faults: set<Op>)
    ensures EnsureWriter(cfg, s, now, n, faults).error != Some(OpFailed(SyncOp))
  {
    FreeNameError(s.dir, RotatedPath(cfg.path, Stamp(now)), 0, faults);
    FreeNameError(s.dir, RotatedPath(cfg.path, s.day), 0, faults);
    var r := Rotate(cfg, s, ArchiveStamp(s.day, now, DayRuleCached(cfg, s, now)), faults).sink;
    OpenFromDiskError(cfg, s, now, n, faults);
    OpenFromDiskError(cfg, r, now, n, faults);
  }

  lemma OpenFromDiskError(cfg: Config, s: Sink, now: Time, n: nat, faults: set<Op>)
    ensures OpenFromDisk(cfg, s, now, n, faults).error != Some(OpFailed(SyncOp))
  {
    FreeNameError(s.dir, RotatedPath(cfg.path, Stamp(now)), 0, faults);
    if cfg.path in s.dir {
      FreeNameError(s.dir, RotatedPath(cfg.path, s.dir[cfg.path].modDay), 0, faults);
    }
  }

  lemma {:induction false} FreeNameError(dir: Directory, dest: string, i: nat, faults: set<Op>)
    ensures FreeName(dir, dest, i, faults).Err? ==> FreeName(dir, dest, i, faults).error != OpFailed(SyncOp)
    decreases ARCHIVE_NAMES - i
  {
    if i < ARCHIVE_NAMES {
      FreeNameError(dir, dest, i + 1, faults);
    }
  }

  // ----- whole runs -----

  function EventRecord(e: Event, error: Option<WriteError>): seq<Record> {
    if e.WriteEvent? then LandedRecord(e.req, error) else []
  }

  lemma NextConserves(cfg: Config, s: Sink, e: Event)
    requires Valid(cfg, s) && Tracked(cfg, s)
    ensures var o := Next(cfg, s, e);
            && Grows(cfg, s, o.sink)
            && AllRecords(cfg, o.sink) == AllRecords(cfg, s) + EventRecord(e, o.error)
  {
    if e.WriteEvent? {
      WriteConserves(cfg, s, e.req);
    } else {
      SameFilesConserve(cfg, s, Closed(s));
    }
  }

  /** The lines a history of calls put in the store, in call order. */
  function Stored(cfg: Config, s: Sink, events: seq<Event>): seq<Record>
    requires Valid(cfg, s)
  {
    if events == [] then []
    else
      var before := events[..|events| - 1];
      var e := events[|events| - 1];
      Stored(cfg, s, before) + EventRecord(e, Next(cfg, Run(cfg, s, before), e).error)
  }

  lemma ConservationStep(cfg: Config, s: Sink, m: Sink, stored: seq<Record>, e: Event)
    requires Valid(cfg, m) && Tracked(cfg, s)
    requires Grows(cfg, s, m) && AllRecords(cfg, m) == AllRecords(cfg, s) + stored
    ensures var o := Next(cfg, m, e);
            && Grows(cfg, s, o.sink)
            && AllRecords(cfg, o.sink) == AllRecords(cfg, s) + (stored + EventRecord(e, o.error))
  {
    NextConserves(cfg, m, e);
    GrowsTransitive(cfg, s, m, Next(cfg, m, e).sink);
    RecordsAssociate(AllRecords(cfg, s), stored, EventRecord(e, Next(cfg, m, e).error));
  }

  lemma RecordsAssociate(a: seq<Record>, b: seq<Record>, c: seq<Record>)
    ensures (a + b) + c == a + (b + c)
  {
  }

  /**
   Conservation.  After any history, with any calls failing and any closes or restarts in
   between, the archives in rotation order followed by the active file read as the initial
   contents followed by the stored lines in order; no rename hit an existing file.
   */
  lemma {:induction false} Conservation(cfg: Config, s: Sink, events: seq<Event>)
    requires Valid(cfg, s) && Tracked(cfg, s)
    ensures var t := Run(cfg, s, events);
            && Grows(cfg, s, t)
            && AllRecords(cfg, t) == AllRecords(cfg, s) + Stored(cfg, s, events)
  {
    if events == [] {
      assert Run(cfg, s, events) == s;
    } else {
      var before := events[..|events| - 1];
      var e := events[|events| - 1];
      Conservation(cfg, s, before);
      ConservationStep(cfg, s, Run(cfg, s, before), Stored(cfg, s, before), e);
    }
  }

  /**
   Running out of names: when all hundred candidates of the stamp are taken, a rotation
   fails with an error and the directory stays exactly as it was.
   */
  lemma ExhaustionLosesNothing(cfg: Config, s: Sink, stamp: string)
    requires cfg.path in s.dir
    ensures var r := RotatePath(cfg, s, stamp, {});
            && (r.error == Some(NoFreeName) <==>
                  forall k :: 0 <= k < 100 ==> Candidate(RotatedPath(cfg.path, stamp), k) in s.dir)
            && (r.error != None ==> r.sink == s)
  {
    var dest := RotatedPath(cfg.path, stamp);
    FreeNameIsFree(s.dir, dest, 0, {});
    NoFaultNoError(s.dir, dest, 0);
  }

  lemma {:induction false} NoFaultNoError(dir: Directory, dest: string, i: nat)
    ensures FreeName(dir, dest, i, {}).Err? ==> FreeName(dir, dest, i, {}).error == NoFreeName
    decreases ARCHIVE_NAMES - i
  {
    if i < ARCHIVE_NAMES {
      NoFaultNoError(dir, dest, i + 1);
    }
  }
}
