/** The names that rotation gives, and the calls that rotate. */
module StorageNames {
  import opened Text
  import opened Clock
  import opened TimeLine
  import opened Storage
  import opened StorageConservation
  import opened StorageRestart
  import opened StorageBytes

  // ----- names -----

  lemma {:induction false} ExtAfterDot(stem: string, suffix: string)
    requires '.' !in suffix
    ensures Ext(stem + "." + suffix) == "." + suffix
    decreases |suffix|
  {
    var base := stem + "." + suffix;
    if suffix != "" {
      var k := |suffix| - 1;
      ExtAfterDot(stem, suffix[..k]);
      assert suffix[k] in suffix;
      assert base[..|base| - 1] == stem + "." + suffix[..k];
      assert suffix == suffix[..k] + [suffix[k]];
    }
  }

  lemma {:induction false} ExtWithoutDot(base: string)
    requires '.' !in base
    ensures Ext(base) == ""
  {
    if base != "" {
      assert base[|base| - 1] in base;
      ExtWithoutDot(base[..|base| - 1]);
    }
  }

  /** A stamp goes in front of what follows the last dot; without a dot the archive is a .jsonl file. */
  lemma RotatedNames(stem: string, suffix: string, stamp: string)
    requires '.' !in suffix
    ensures RotatedPath(stem + "." + suffix, stamp) == stem + "-" + stamp + "." + suffix
    ensures '.' !in stem ==> RotatedPath(stem, stamp) == stem + "-" + stamp + ".jsonl"
  {
    ExtAfterDot(stem, suffix);
    var base := stem + "." + suffix;
    assert base[..|base| - |"." + suffix|] == stem;
    ConcatAssociates(stem + "-" + stamp, ".", suffix);
    if '.' !in stem {
      ExtWithoutDot(stem);
      assert stem[..|stem|] == stem;
    }
  }

  /** name is the first free one of the hundred: the rotated name itself, or the next number. */
  predicate FirstFree(cfg: Config, dir: Directory, stamp: string, name: string) {
    var dest := RotatedPath(cfg.path, stamp);
    exists k: nat :: k < 100 && name == NumberedName(dest, k) && FreeFrom(dir, dest, k)
  }

  function NumberedName(dest: string, k: nat): string {
    if k == 0 then dest else dest + "." + Dec(k)
  }

  /** The k-th name is the first that no file has. */
  predicate FreeFrom(dir: Directory, dest: string, k: nat) {
    NumberedName(dest, k) !in dir && forall j: nat :: j < k ==> NumberedName(dest, j) in dir
  }

  lemma {:induction false} FreeNameIsFirst(dir: Directory, dest: string, i: nat, faults: set<Op>)
    requires forall j: nat :: j < i ==> NumberedName(dest, j) in dir
    ensures var r := FreeName(dir, dest, i, faults);
            r.Ok? ==> exists k: nat :: k < 100 && r.value == NumberedName(dest, k) && FreeFrom(dir, dest, k)
    decreases ARCHIVE_NAMES - i
  {
    if i < ARCHIVE_NAMES {
      assert Candidate(dest, i) == NumberedName(dest, i);
      if NumberedName(dest, i) in dir {
        FreeNameIsFirst(dir, dest, i + 1, faults);
      } else {
        assert FreeFrom(dir, dest, i);
      }
    }
  }

  // ----- which calls rotate -----

  /** The files, and the archives among them, oldest first. */
  datatype Store = Store(dir: Directory, archives: seq<string>)

  function StoreOf(s: Sink): Store {
    Store(s.dir, s.archives)
  }

  /** The active file's lines. */
  function Active(cfg: Config, s: Store): seq<Record> {
    if cfg.path in s.dir then s.dir[cfg.path].records else []
  }

  /** The lines of the active file are not empty, and it is dated by the last of them. */
  predicate Dated(cfg: Config, s: Store) {
    cfg.path in s.dir ==>
      var f := s.dir[cfg.path];
      && (forall r :: r in f.records ==> r.line != "")
      && (f.records != [] ==> f.modDay == DayKey(f.records[|f.records| - 1].written))
  }

  /** The active file's last line was written on another date. */
  predicate DueByDay(cfg: Config, s: Store, now: Time) {
    && cfg.rotateDaily && Active(cfg, s) != []
    && !SameDate(Active(cfg, s)[|Active(cfg, s)| - 1].written, now)
  }

  /** The active file is not empty and has no room for n more bytes. */
  predicate DueBySize(cfg: Config, s: Store, n: nat) {
    var text := Contents(Active(cfg, s));
    cfg.maxBytes > 0 && text != "" && |text| + n > cfg.maxBytes
  }

  lemma {:induction false} LinesMakeBytes(rs: seq<Record>)
    requires forall r :: r in rs ==> r.line != ""
    ensures Contents(rs) == "" <==> rs == []
  {
    if rs != [] {
      assert rs[|rs| - 1] in rs;
    }
  }

  lemma RulesAreDue(cfg: Config, s: Store, now: Time, n: nat)
    requires Dated(cfg, s) && cfg.path in s.dir
    ensures DayRuleOnDisk(cfg, s.dir[cfg.path], now) <==> DueByDay(cfg, s, now)
    ensures SizeRuleOnDisk(cfg, s.dir[cfg.path], n) <==> DueBySize(cfg, s, n)
  {
    var rs := s.dir[cfg.path].records;
    LinesMakeBytes(rs);
    BytesCounts(rs);
    if rs != [] {
      DayKeyExactly(rs[|rs| - 1].written, now);
    }
  }

  /** The stamp of a rotation: the date of the lines at the turn of a day, else the instant. */
  function DueStamp(cfg: Config, s: Store, now: Time): string {
    var rs := Active(cfg, s);
    if DueByDay(cfg, s, now) then DayKey(rs[|rs| - 1].written) else Stamp(now)
  }

  /** The active file as it is under a free name, and nothing in its place. */
  predicate Moved(cfg: Config, s: Store, t: Store, name: string, rec: Record) {
    && cfg.path in s.dir && t.archives == s.archives + [name]
    && t.dir == s.dir[name := s.dir[cfg.path]][cfg.path := File([rec], DayKey(rec.written))]
  }

  /** One line more in the active file. */
  predicate Extended(cfg: Config, s: Store, t: Store, rec: Record) {
    && t.archives == s.archives
    && t.dir == s.dir[cfg.path := File(Active(cfg, s) + [rec], DayKey(rec.written))]
  }

  lemma OpenAndExtend(cfg: Config, s: Sink, now: Time, faults: set<Op>, rec: Record)
    requires OpenOp !in faults
    ensures var w := OpenActive(cfg, s, now, faults).sink;
            cfg.path in w.dir && Extended(cfg, StoreOf(s), StoreOf(Append(cfg, w, rec)), rec)
  {
  }

  lemma RotateAndOpen(cfg: Config, s: Sink, stamp: string, now: Time, faults: set<Op>, rec: Record)
    requires cfg.path in s.dir && Benign(faults) && RotatePath(cfg, s, stamp, faults).error == None
    ensures var w := OpenActive(cfg, RotatePath(cfg, s, stamp, faults).sink, now, faults).sink;
            && cfg.path in w.dir
            && exists name :: FirstFree(cfg, s.dir, stamp, name)
                              && Moved(cfg, StoreOf(s), StoreOf(Append(cfg, w, rec)), name, rec)
  {
    var r := RotatePath(cfg, s, stamp, faults);
    var dest := RotatedPath(cfg.path, stamp);
    FreeNameIsFirst(s.dir, dest, 0, faults);
    FreeNameIsFree(s.dir, dest, 0, faults);
    var name := FreeName(s.dir, dest, 0, faults).value;
    OpenAndExtend(cfg, r.sink, now, faults, rec);
    assert FirstFree(cfg, s.dir, stamp, name);
    var t := Append(cfg, OpenActive(cfg, r.sink, now, faults).sink, rec);
    assert [] + [rec] == [rec];
    assert name != cfg.path;
    assert t.dir == s.dir[name := s.dir[cfg.path]][cfg.path := File([rec], DayKey(rec.written))];
    assert Moved(cfg, StoreOf(s), StoreOf(t), name, rec);
  }

  /** A call that lands its line rotates exactly when that is due, and to the name it should. */
  predicate Rotates(cfg: Config, s: Store, t: Store, now: Time, n: nat, rec: Record) {
    if DueByDay(cfg, s, now) || DueBySize(cfg, s, n) then
      exists name :: name in t.archives && FirstFree(cfg, s.dir, DueStamp(cfg, s, now), name)
                     && Moved(cfg, s, t, name, rec)
    else Extended(cfg, s, t, rec)
  }

  lemma DueRotates(cfg: Config, s: Sink, req: Request)
    requires Valid(cfg, s) && !s.open && Dated(cfg, StoreOf(s)) && Benign(req.faults) && cfg.path in s.dir
    requires Refusal(req).None?
    requires DueByDay(cfg, StoreOf(s), req.now) || DueBySize(cfg, StoreOf(s), |Line(req)|)
    ensures var w := EnsureWriter(cfg, s, req.now, |Line(req)|, req.faults);
            && (w.error == None ==>
                  && cfg.path in w.sink.dir
                  && Rotates(cfg, StoreOf(s), StoreOf(Append(cfg, w.sink, RecordOf(req))),
                             req.now, |Line(req)|, RecordOf(req)))
            && (w.error != None ==> SameStore(s, w.sink))
  {
    RulesAreDue(cfg, StoreOf(s), req.now, |Line(req)|);
    var stamp := DueStamp(cfg, StoreOf(s), req.now);
    var r := RotatePath(cfg, s, stamp, req.faults);
    assert EnsureWriter(cfg, s, req.now, |Line(req)|, req.faults) == OpenAfter(cfg, r, req.now, req.faults);
    if r.error == None {
      RotateAndOpen(cfg, s, stamp, req.now, req.faults, RecordOf(req));
      var t := Append(cfg, OpenActive(cfg, r.sink, req.now, req.faults).sink, RecordOf(req));
      var name :| FirstFree(cfg, s.dir, stamp, name) && Moved(cfg, StoreOf(s), StoreOf(t), name, RecordOf(req));
      assert t.archives[|s.archives|] == name;
    }
  }

  lemma NotDueExtends(cfg: Config, s: Sink, req: Request)
    requires Valid(cfg, s) && !s.open && Dated(cfg, StoreOf(s)) && Benign(req.faults)
    requires Refusal(req).None?
    requires !DueByDay(cfg, StoreOf(s), req.now) && !DueBySize(cfg, StoreOf(s), |Line(req)|)
    ensures var w := EnsureWriter(cfg, s, req.now, |Line(req)|, req.faults);
            && w.error == None && cfg.path in w.sink.dir
            && Rotates(cfg, StoreOf(s), StoreOf(Append(cfg, w.sink, RecordOf(req))), req.now, |Line(req)|, RecordOf(req))
  {
    OpenAndExtend(cfg, s, req.now, req.faults, RecordOf(req));
    if cfg.path in s.dir {
      RulesAreDue(cfg, StoreOf(s), req.now, |Line(req)|);
    }
  }

  lemma ClosedWriteRotates(cfg: Config, s: Sink, req: Request)
    requires Valid(cfg, s) && !s.open && Dated(cfg, StoreOf(s)) && Benign(req.faults) && Refusal(req).None?
    ensures var o := Write(cfg, s, req);
            && (Landed(o.error) ==> Rotates(cfg, StoreOf(s), StoreOf(o.sink), req.now, |Line(req)|, RecordOf(req)))
            && (!Landed(o.error) ==> SameStore(s, o.sink))
  {
    EnsureWriterError(cfg, s, req.now, |Line(req)|, req.faults);
    if DueByDay(cfg, StoreOf(s), req.now) || DueBySize(cfg, StoreOf(s), |Line(req)|) {
      DueRotates(cfg, s, req);
    } else {
      NotDueExtends(cfg, s, req);
    }
    EnsureWriterOpens(cfg, s, req.now, |Line(req)|, req.faults);
  }

  /** Over any handle that has seen only benign failures. */
  lemma WriteRotatesExactly(cfg: Config, s: Sink, req: Request)
    requires Coherent(cfg, s) && Dated(cfg, StoreOf(s)) && Benign(req.faults) && Refusal(req).None?
    ensures var o := Write(cfg, s, req);
            && (Landed(o.error) ==> Rotates(cfg, StoreOf(s), StoreOf(o.sink), req.now, |Line(req)|, RecordOf(req)))
            && (!Landed(o.error) ==> SameStore(s, o.sink))
  {
    var a, b := Write(cfg, s, req), Write(cfg, Closed(s), req);
    ClosedWriteRotates(cfg, Closed(s), req);
    WriteIgnoresHandle(cfg, s, req);
    assert StoreOf(a.sink) == StoreOf(b.sink) && StoreOf(Closed(s)) == StoreOf(s);
  }

  lemma MovedIsDated(cfg: Config, s: Store, t: Store, rec: Record)
    requires rec.line != "" && Dated(cfg, s)
    requires Extended(cfg, s, t, rec) || exists name :: Moved(cfg, s, t, name, rec)
    ensures Dated(cfg, t)
  {
  }

  lemma NextIsDated(cfg: Config, s: Sink, e: Event)
    requires Coherent(cfg, s) && Dated(cfg, StoreOf(s)) && (e.WriteEvent? ==> Benign(e.req.faults))
    ensures Coherent(cfg, Next(cfg, s, e).sink) && Dated(cfg, StoreOf(Next(cfg, s, e).sink))
  {
    if e.WriteEvent? {
      WriteIgnoresHandle(cfg, s, e.req);
      if Refusal(e.req).None? {
        WriteRotatesExactly(cfg, s, e.req);
        var o := Write(cfg, s, e.req);
        if Landed(o.error) {
          MovedIsDated(cfg, StoreOf(s), StoreOf(o.sink), RecordOf(e.req));
        }
      }
    }
  }

  lemma {:induction false} RunIsDated(cfg: Config, s: Sink, events: seq<Event>)
    requires Coherent(cfg, s) && Dated(cfg, StoreOf(s)) && AllBenign(Writes(events))
    ensures Coherent(cfg, Run(cfg, s, events)) && Dated(cfg, StoreOf(Run(cfg, s, events)))
  {
    if events != [] {
      var before := events[..|events| - 1];
      var e := events[|events| - 1];
      BenignPrefix(events);
      RunIsDated(cfg, s, before);
      NextIsDated(cfg, Run(cfg, s, before), e);
    }
  }

  lemma BenignPrefix(events: seq<Event>)
    requires events != [] && AllBenign(Writes(events))
    ensures AllBenign(Writes(events[..|events| - 1]))
    ensures events[|events| - 1].WriteEvent? ==> Benign(events[|events| - 1].req.faults)
  {
    var w := Writes(events[..|events| - 1]);
    assert forall i :: 0 <= i < |w| ==> w[i] == Writes(events)[i];
    if events[|events| - 1].WriteEvent? {
      assert Writes(events)[|w|] == events[|events| - 1].req;
    }
  }

  /**
   Rotation, exactly.  After any history with benign failures, closes and restarts, a call that
   lands its line moves the active file away if and only if the last line there is of another
   date and daily rotation is on, or the file is not empty and has no room for the line; it
   then gets the first free name, stamped with the date of its lines or with the instant, and
   the line starts a new file.  In every other case the line extends the active file, and a
   call that lands nothing changes no file.
   */
  lemma RotationExactly(cfg: Config, s: Sink, events: seq<Event>, req: Request)
    requires Coherent(cfg, s) && Dated(cfg, StoreOf(s)) && AllBenign(Writes(events)) && Benign(req.faults)
    requires Refusal(req).None?
    ensures var m := Run(cfg, s, events);
            var o := Write(cfg, m, req);
            && (Landed(o.error) ==> Rotates(cfg, StoreOf(m), StoreOf(o.sink), req.now, |Line(req)|, RecordOf(req)))
            && (!Landed(o.error) ==> SameStore(m, o.sink))
  {
    RunIsDated(cfg, s, events);
    WriteRotatesExactly(cfg, Run(cfg, s, events), req);
  }
}
