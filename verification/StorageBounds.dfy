/** How many files size rotation can produce, and which day's lines a file can hold. */
module StorageBounds {
  import opened Text
  import opened Clock
  import opened TimeLine
  import opened Storage
  import opened StorageConservation
  import opened StorageRestart

  // ===== size rotation packs like next-fit =====

  function Files(cfg: Config, s: Sink): seq<seq<Record>>
    requires Tracked(cfg, s)
  {
    ArchiveFiles(s) + if cfg.path in s.dir then [s.dir[cfg.path].records] else []
  }

  predicate FileFits(max: nat, f: seq<Record>) {
    f != [] && Bytes(f) > 0 && (Bytes(f) <= max || |f| == 1)
  }

  /** Every file fits or is one oversized line, and no file had room for the next file's first line. */
  predicate Packed(max: nat, files: seq<seq<Record>>) {
    && (forall i :: 0 <= i < |files| ==> FileFits(max, files[i]))
    && (forall i :: 0 <= i < |files| - 1 ==> Bytes(files[i]) + |files[i + 1][0].line| > max)
  }

  lemma PackedSnoc(max: nat, files: seq<seq<Record>>, rec: Record)
    requires Packed(max, files) && rec.line != ""
    requires files != [] ==> Bytes(files[|files| - 1]) + |rec.line| > max
    ensures Packed(max, files + [[rec]])
  {
  }

  lemma PackedExtend(max: nat, files: seq<seq<Record>>, rec: Record)
    requires Packed(max, files) && files != []
    requires Bytes(files[|files| - 1]) + |rec.line| <= max
    ensures Packed(max, files[..|files| - 1] + [files[|files| - 1] + [rec]])
  {
  }

  predicate SizeOnly(cfg: Config) {
    cfg.maxBytes > 0 && !cfg.rotateDaily
  }

  /** The packing invariant: nothing is archived before something is active. */
  predicate NextFit(cfg: Config, s: Sink) {
    && Coherent(cfg, s) && Tracked(cfg, s)
    && (s.archives != [] ==> cfg.path in s.dir)
    && Packed(cfg.maxBytes, Files(cfg, s))
  }

  /** What the packing says of the files alone. */
  predicate PackedStore(cfg: Config, t: Sink) {
    Tracked(cfg, t) && (t.archives != [] ==> cfg.path in t.dir) && Packed(cfg.maxBytes, Files(cfg, t))
  }

  /** A benign step either changes no file or moves to one of two next packings. */
  lemma StatelessWritePacks(cfg: Config, s: Sink, req: Request)
    requires SizeOnly(cfg) && NextFit(cfg, s) && !s.open && Benign(req.faults)
    ensures NextFit(cfg, Write(cfg, s, req).sink)
  {
    WriteIgnoresHandle(cfg, s, req);
    assert Closed(s) == s;
    if Refusal(req).None? {
      AcceptedWritePacks(cfg, s, req);
    }
  }

  lemma AcceptedWritePacks(cfg: Config, s: Sink, req: Request)
    requires SizeOnly(cfg) && NextFit(cfg, s) && !s.open && Benign(req.faults) && Refusal(req).None?
    ensures PackedStore(cfg, Write(cfg, s, req).sink)
  {
    if cfg.path !in s.dir {
      WriteFirst(cfg, s, req);
      PackedSnoc(cfg.maxBytes, Files(cfg, s), RecordOf(req));
    } else if SizeRuleOnDisk(cfg, s.dir[cfg.path], |Line(req)|) {
      RotatingWritePacks(cfg, s, req, Write(cfg, s, req).sink);
    } else {
      WriteExtends(cfg, s, req);
      assert FileFits(cfg.maxBytes, Files(cfg, s)[|Files(cfg, s)| - 1]);
      PackedExtend(cfg.maxBytes, Files(cfg, s), RecordOf(req));
    }
  }

  lemma RotatingWritePacks(cfg: Config, s: Sink, req: Request, t: Sink)
    requires SizeOnly(cfg) && NextFit(cfg, s) && !s.open && Benign(req.faults)
    requires Refusal(req).None? && cfg.path in s.dir && t == Write(cfg, s, req).sink
    requires SizeRuleOnDisk(cfg, s.dir[cfg.path], |Line(req)|)
    ensures Tracked(cfg, t) && Packed(cfg.maxBytes, Files(cfg, t)) && cfg.path in t.dir
  {
    WriteRotates(cfg, s, req);
    if SameStore(s, t) {
      assert Files(cfg, t) == Files(cfg, s);
    } else {
      PackedSnoc(cfg.maxBytes, Files(cfg, s), RecordOf(req));
    }
  }

  /** Once the writer is there, a benign write is an append. */
  lemma WriteIsAppend(cfg: Config, s: Sink, req: Request, w: Sink)
    requires Valid(cfg, s) && Refusal(req).None? && Benign(req.faults) && cfg.path in w.dir
    requires EnsureWriter(cfg, s, req.now, |Line(req)|, req.faults) == Outcome(w, None)
    ensures Write(cfg, s, req).sink == Append(cfg, w, RecordOf(req))
  {
  }

  lemma AppendExtendsLast(cfg: Config, w: Sink, rec: Record)
    requires Tracked(cfg, w) && cfg.path in w.dir
    ensures var t := Append(cfg, w, rec);
            var files := Files(cfg, w);
            && Tracked(cfg, t) && cfg.path in t.dir && files != []
            && Files(cfg, t) == files[..|files| - 1] + [files[|files| - 1] + [rec]]
  {
  }

  lemma OpenAddsEmpty(cfg: Config, s: Sink, now: Time, faults: set<Op>)
    requires Tracked(cfg, s) && cfg.path !in s.dir && OpenOp !in faults
    ensures var w := OpenActive(cfg, s, now, faults).sink;
            Tracked(cfg, w) && cfg.path in w.dir && Files(cfg, w) == Files(cfg, s) + [[]]
  {
  }

  lemma OpenAndAppend(cfg: Config, s: Sink, now: Time, faults: set<Op>, rec: Record)
    requires Tracked(cfg, s) && cfg.path !in s.dir && OpenOp !in faults
    ensures var w := OpenActive(cfg, s, now, faults).sink;
            && cfg.path in w.dir && Tracked(cfg, Append(cfg, w, rec))
            && cfg.path in Append(cfg, w, rec).dir
            && Files(cfg, Append(cfg, w, rec)) == Files(cfg, s) + [[rec]]
  {
    var w := OpenActive(cfg, s, now, faults).sink;
    OpenAddsEmpty(cfg, s, now, faults);
    AppendExtendsLast(cfg, w, rec);
    var files := Files(cfg, w);
    assert files[..|files| - 1] == Files(cfg, s);
    assert [] + [rec] == [rec];
  }

  lemma WriteFirst(cfg: Config, s: Sink, req: Request)
    requires Coherent(cfg, s) && Tracked(cfg, s) && !s.open && Benign(req.faults)
    requires Refusal(req).None? && cfg.path !in s.dir
    ensures var t := Write(cfg, s, req).sink;
            Tracked(cfg, t) && cfg.path in t.dir && Files(cfg, t) == Files(cfg, s) + [[RecordOf(req)]]
  {
    OpenAndAppend(cfg, s, req.now, req.faults, RecordOf(req));
    WriteIsAppend(cfg, s, req, OpenActive(cfg, s, req.now, req.faults).sink);
  }

  lemma WriteExtends(cfg: Config, s: Sink, req: Request)
    requires SizeOnly(cfg) && Coherent(cfg, s) && Tracked(cfg, s) && !s.open && Benign(req.faults)
    requires Refusal(req).None? && cfg.path in s.dir
    requires !SizeRuleOnDisk(cfg, s.dir[cfg.path], |Line(req)|)
    ensures var t := Write(cfg, s, req).sink;
            var files := Files(cfg, s);
            && Tracked(cfg, t) && cfg.path in t.dir && files != []
            && Files(cfg, t) == files[..|files| - 1] + [files[|files| - 1] + [RecordOf(req)]]
  {
  }

  lemma RotationRenumbers(cfg: Config, s: Sink, stamp: string, faults: set<Op>)
    requires Tracked(cfg, s) && cfg.path in s.dir
    requires RotatePath(cfg, s, stamp, faults).error.None?
    ensures var r := RotatePath(cfg, s, stamp, faults).sink;
            Tracked(cfg, r) && cfg.path !in r.dir && Files(cfg, r) == Files(cfg, s)
  {
    RotatePathConserves(cfg, s, stamp, faults);
    RotatePathFrees(cfg, s, stamp, faults);
    FreeNameIsFree(s.dir, RotatedPath(cfg.path, stamp), 0, faults);
    var r := RotatePath(cfg, s, stamp, faults).sink;
    assert ArchiveFiles(r) == ArchiveFiles(s) + [s.dir[cfg.path].records];
  }

  lemma WriteRotates(cfg: Config, s: Sink, req: Request)
    requires SizeOnly(cfg) && Coherent(cfg, s) && Tracked(cfg, s) && !s.open && Benign(req.faults)
    requires Refusal(req).None? && cfg.path in s.dir
    requires SizeRuleOnDisk(cfg, s.dir[cfg.path], |Line(req)|)
    ensures var t := Write(cfg, s, req).sink;
            && Tracked(cfg, t) && cfg.path in t.dir
            && (SameStore(s, t) || Files(cfg, t) == Files(cfg, s) + [[RecordOf(req)]])
  {
    var stamp := ArchiveStamp("", req.now, false);
    var r := RotatePath(cfg, s, stamp, req.faults);
    if r.error.None? {
      RotationRenumbers(cfg, s, stamp, req.faults);
      OpenAndAppend(cfg, r.sink, req.now, req.faults, RecordOf(req));
      WriteIsAppend(cfg, s, req, OpenActive(cfg, r.sink, req.now, req.faults).sink);
    }
  }

  lemma NextPacks(cfg: Config, s: Sink, e: Event)
    requires SizeOnly(cfg) && NextFit(cfg, s)
    requires e.WriteEvent? ==> Benign(e.req.faults)
    ensures NextFit(cfg, Next(cfg, s, e).sink)
  {
    var t := Next(cfg, s, e).sink;
    NextConserves(cfg, s, e);
    NextIgnoresHandle(cfg, s, Closed(s), e);
    assert Files(cfg, Closed(s)) == Files(cfg, s);
    if e.WriteEvent? {
      StatelessWritePacks(cfg, Closed(s), e.req);
      assert Files(cfg, t) == Files(cfg, Write(cfg, Closed(s), e.req).sink);
    }
  }

  lemma {:induction false} RunPacks(cfg: Config, s: Sink, events: seq<Event>)
    requires SizeOnly(cfg) && NextFit(cfg, s) && AllBenign(Writes(events))
    ensures NextFit(cfg, Run(cfg, s, events))
  {
    if events != [] {
      var before := events[..|events| - 1];
      var e := events[|events| - 1];
      var w := Writes(before);
      assert AllBenign(w) by {
        assert forall i :: 0 <= i < |w| ==> w[i] == Writes(events)[i];
      }
      if e.WriteEvent? {
        assert Writes(events)[|w|] == e.req;
      }
      RunPacks(cfg, s, before);
      NextPacks(cfg, Run(cfg, s, before), e);
    }
  }

  // ----- counting -----

  function TotalBytes(files: seq<seq<Record>>): nat {
    if files == [] then 0 else TotalBytes(files[..|files| - 1]) + Bytes(files[|files| - 1])
  }

  lemma {:induction false} FirstLineCounts(f: seq<Record>)
    requires f != []
    ensures |f[0].line| <= Bytes(f)
  {
    if |f| > 1 {
      FirstLineCounts(f[..|f| - 1]);
    }
  }

  lemma PackedPrefix(max: nat, files: seq<seq<Record>>, k: nat)
    requires Packed(max, files) && k <= |files|
    ensures Packed(max, files[..k])
  {
  }

  lemma LastPairOverflows(max: nat, files: seq<seq<Record>>)
    requires Packed(max, files) && |files| >= 2
    ensures max + 1 + TotalBytes(files[..|files| - 2]) <= TotalBytes(files)
  {
    var n := |files|;
    assert FileFits(max, files[n - 1]);
    FirstLineCounts(files[n - 1]);
    assert Bytes(files[n - 2]) + |files[n - 2 + 1][0].line| > max;
    assert files[..n - 1][..n - 2] == files[..n - 2];
  }

  /** Each pair of neighbouring files holds more than max bytes. */
  lemma {:induction false} PairsOverflow(max: nat, files: seq<seq<Record>>)
    requires Packed(max, files)
    ensures (|files| / 2) * (max + 1) <= TotalBytes(files)
  {
    var n := |files|;
    if n >= 2 {
      PackedPrefix(max, files, n - 2);
      PairsOverflow(max, files[..n - 2]);
      LastPairOverflows(max, files);
      OneMorePair((n - 2) / 2, max + 1, TotalBytes(files[..n - 2]), TotalBytes(files));
    }
  }

  lemma OneMorePair(k: nat, p: nat, rest: nat, total: nat)
    requires k * p <= rest && p + rest <= total
    ensures (k + 1) * p <= total
  {
  }

  lemma {:induction false} BytesConcat(a: seq<Record>, b: seq<Record>)
    ensures Bytes(a + b) == Bytes(a) + Bytes(b)
  {
    if b == [] {
      assert a + b == a;
    } else {
      BytesConcat(a, b[..|b| - 1]);
      assert (a + b)[..|a + b| - 1] == a + b[..|b| - 1];
    }
  }

  lemma {:induction false} TotalIsConcat(files: seq<seq<Record>>)
    ensures TotalBytes(files) == Bytes(Concat(files))
  {
    if files != [] {
      TotalIsConcat(files[..|files| - 1]);
      BytesConcat(Concat(files[..|files| - 1]), files[|files| - 1]);
    }
  }

  lemma FilesAreAll(cfg: Config, s: Sink)
    requires Tracked(cfg, s)
    ensures TotalBytes(Files(cfg, s)) == Bytes(AllRecords(cfg, s))
  {
    var files := Files(cfg, s);
    TotalIsConcat(files);
    if cfg.path in s.dir {
      assert files[..|files| - 1] == ArchiveFiles(s);
    } else {
      assert files == ArchiveFiles(s);
      assert AllRecords(cfg, s) == Concat(files);
    }
  }

  /**
   Next-fit bound.  From a sink with no file of its own, size rotation alone, and any closes
   and rotation failures: after any history every file is within the limit or is one line,
   no archive had room for the line that opened the next file, and k files mean more than
   floor(k/2) * MaxBytes written bytes.
   */
  lemma NextFitBound(cfg: Config, s: Sink, events: seq<Event>)
    requires SizeOnly(cfg) && Valid(cfg, s) && !s.open && s.archives == [] && cfg.path !in s.dir
    requires AllBenign(Writes(events))
    ensures var t := Run(cfg, s, events);
            && Tracked(cfg, t)
            && Packed(cfg.maxBytes, Files(cfg, t))
            && (|Files(cfg, t)| >= 2 ==>
                  (|Files(cfg, t)| / 2) * cfg.maxBytes < Bytes(Stored(cfg, s, events)))
  {
    var t := Run(cfg, s, events);
    RunPacks(cfg, s, events);
    StoredIsTotal(cfg, s, events);
    FilesNeedBytes(cfg.maxBytes, Files(cfg, t));
  }

  lemma FilesNeedBytes(max: nat, files: seq<seq<Record>>)
    requires Packed(max, files)
    ensures |files| >= 2 ==> (|files| / 2) * max < TotalBytes(files)
  {
    PairsOverflow(max, files);
    ScaleUp(|files| / 2, max, TotalBytes(files));
  }

  lemma StoredIsTotal(cfg: Config, s: Sink, events: seq<Event>)
    requires Valid(cfg, s) && s.archives == [] && cfg.path !in s.dir
    ensures var t := Run(cfg, s, events);
            Tracked(cfg, t) && TotalBytes(Files(cfg, t)) == Bytes(Stored(cfg, s, events))
  {
    Conservation(cfg, s, events);
    TotalFrom(cfg, s, Run(cfg, s, events), Stored(cfg, s, events));
  }

  lemma TotalFrom(cfg: Config, s: Sink, t: Sink, stored: seq<Record>)
    requires Tracked(cfg, s) && s.archives == [] && cfg.path !in s.dir
    requires Tracked(cfg, t) && AllRecords(cfg, t) == AllRecords(cfg, s) + stored
    ensures TotalBytes(Files(cfg, t)) == Bytes(stored)
  {
    assert AllRecords(cfg, t) == stored;
    FilesAreAll(cfg, t);
  }

  lemma ScaleUp(k: nat, m: nat, total: nat)
    requires k * (m + 1) <= total
    ensures k >= 1 ==> k * m < total
  {
  }

  // ===== daily rotation keeps days apart =====

  predicate OfDay(f: File, day: string) {
    forall r :: r in f.records ==> DayKey(r.written) == day && r.line != ""
  }

  /** The file's lines are all of one day, and the archive is called stem-day... */
  predicate NamedByDay(cfg: Config, name: string, f: File) {
    var k := |Stem(cfg.path)| + 1;
    && |name| >= k + 8
    && name[..k] == Stem(cfg.path) + "-"
    && OfDay(f, name[k..k + 8])
  }

  predicate ActiveDay(f: File) {
    |f.modDay| == 8 && OfDay(f, f.modDay)
  }

  predicate SingleDay(cfg: Config, s: Sink) {
    && Valid(cfg, s) && Tracked(cfg, s)
    && (forall a :: a in s.archives ==> NamedByDay(cfg, a, s.dir[a]))
    && (cfg.path in s.dir ==> ActiveDay(s.dir[cfg.path]))
    && (s.open ==> |s.day| == 8 && OfDay(s.dir[cfg.path], s.day))
  }

  lemma {:induction false} NonemptyHasBytes(rs: seq<Record>)
    requires rs != [] && forall r :: r in rs ==> r.line != ""
    ensures Bytes(rs) > 0
  {
  }

  lemma NameStartsWithStamp(base: string, stamp: string, i: nat)
    requires |stamp| >= 8
    ensures var name := Candidate(RotatedPath(base, stamp), i);
            var k := |Stem(base)| + 1;
            |name| >= k + 8 && name[..k] == Stem(base) + "-" && name[k..k + 8] == stamp[..8]
  {
    var name := Candidate(RotatedPath(base, stamp), i);
    var k := |Stem(base)| + 1;
    assert name[k..k + |stamp|] == stamp;
    assert name[k..k + 8] == name[k..k + |stamp|][..8];
  }

  lemma RotatePathKeepsDays(cfg: Config, s: Sink, stamp: string, faults: set<Op>)
    requires SingleDay(cfg, s) && !s.open
    requires |stamp| >= 8 && (cfg.path in s.dir ==> OfDay(s.dir[cfg.path], stamp[..8]))
    ensures SingleDay(cfg, RotatePath(cfg, s, stamp, faults).sink)
  {
    var r := RotatePath(cfg, s, stamp, faults);
    RotatePathConserves(cfg, s, stamp, faults);
    if r.sink != s {
      var dest := RotatedPath(cfg.path, stamp);
      FreeNameIsFree(s.dir, dest, 0, faults);
      var name := FreeName(s.dir, dest, 0, faults).value;
      var k :| 0 <= k < ARCHIVE_NAMES && name == Candidate(dest, k);
      NameStartsWithStamp(cfg.path, stamp, k);
      assert NamedByDay(cfg, name, s.dir[cfg.path]);
    }
  }

  lemma OpenActiveKeepsDays(cfg: Config, s: Sink, now: Time, faults: set<Op>)
    requires SingleDay(cfg, s) && !s.open
    requires cfg.path in s.dir ==> OfDay(s.dir[cfg.path], DayKey(now))
    ensures var w := OpenActive(cfg, s, now, faults);
            SingleDay(cfg, w.sink) && (w.error.None? ==> w.sink.open && w.sink.day == DayKey(now))
  {
  }

  lemma OpenFromDiskKeepsDays(cfg: Config, s: Sink, now: Time, n: nat, faults: set<Op>)
    requires cfg.rotateDaily && SingleDay(cfg, s) && !s.open
    ensures var w := OpenFromDisk(cfg, s, now, n, faults);
            SingleDay(cfg, w.sink) && (w.error.None? ==> w.sink.open && w.sink.day == DayKey(now))
  {
    if cfg.path !in s.dir {
      OpenActiveKeepsDays(cfg, s, now, faults);
    } else {
      var f := s.dir[cfg.path];
      if f.records != [] {
        NonemptyHasBytes(f.records);
      }
      var dayRule := DayRuleOnDisk(cfg, f, now);
      if dayRule || SizeRuleOnDisk(cfg, f, n) {
        var stamp := if dayRule then ArchiveStamp(f.modDay, now, true) else ArchiveStamp("", now, false);
        assert OfDay(f, stamp[..8]);
        RotatePathKeepsDays(cfg, s, stamp, faults);
        var r := RotatePath(cfg, s, stamp, faults);
        if r.error.None? {
          RotatePathFrees(cfg, s, stamp, faults);
          OpenActiveKeepsDays(cfg, r.sink, now, faults);
        }
      } else {
        OpenActiveKeepsDays(cfg, s, now, faults);
      }
    }
  }

  lemma ClosedKeepsDays(cfg: Config, s: Sink)
    requires SingleDay(cfg, s)
    ensures SingleDay(cfg, Closed(s))
  {
  }

  lemma EnsureWriterKeepsDays(cfg: Config, s: Sink, now: Time, n: nat, faults: set<Op>)
    requires cfg.rotateDaily && SingleDay(cfg, s)
    ensures var w := EnsureWriter(cfg, s, now, n, faults);
            SingleDay(cfg, w.sink) && (w.error.None? ==> w.sink.open && w.sink.day == DayKey(now))
  {
    if !s.open {
      OpenFromDiskKeepsDays(cfg, s, now, n, faults);
    } else if DayRuleCached(cfg, s, now) || SizeRuleCached(cfg, s, n) {
      ClosedKeepsDays(cfg, s);
      var stamp := ArchiveStamp(s.day, now, DayRuleCached(cfg, s, now));
      assert stamp[..8] == s.day;
      RotatePathKeepsDays(cfg, Closed(s), stamp, faults);
      var r := Rotate(cfg, s, stamp, faults);
      RotateCloses(cfg, s, stamp, faults);
      assert SingleDay(cfg, r.sink);
      OpenFromDiskKeepsDays(cfg, r.sink, now, n, faults);
    }
  }

  lemma AppendKeepsDays(cfg: Config, s: Sink, rec: Record)
    requires SingleDay(cfg, s) && s.open && s.day == DayKey(rec.written) && rec.line != ""
    ensures SingleDay(cfg, Append(cfg, s, rec))
  {
  }

  lemma NextKeepsDays(cfg: Config, s: Sink, e: Event)
    requires cfg.rotateDaily && SingleDay(cfg, s)
    ensures SingleDay(cfg, Next(cfg, s, e).sink)
  {
    if e.CloseEvent? {
      ClosedKeepsDays(cfg, s);
    } else if Refusal(e.req).None? {
      var n := |Line(e.req)|;
      EnsureWriterKeepsDays(cfg, s, e.req.now, n, e.req.faults);
      var w := EnsureWriter(cfg, s, e.req.now, n, e.req.faults);
      if w.error.None? {
        AppendKeepsDays(cfg, w.sink, RecordOf(e.req));
      }
    }
  }

  lemma {:induction false} RunKeepsDays(cfg: Config, s: Sink, events: seq<Event>)
    requires cfg.rotateDaily && SingleDay(cfg, s)
    ensures SingleDay(cfg, Run(cfg, s, events))
  {
    if events != [] {
      RunKeepsDays(cfg, s, events[..|events| - 1]);
      NextKeepsDays(cfg, Run(cfg, s, events[..|events| - 1]), events[|events| - 1]);
    }
  }

  /** The lines of a file were all written on one date. */
  predicate OneDate(f: File) {
    forall r, q :: r in f.records && q in f.records ==> SameDate(r.written, q.written)
  }

  /** The eight digits after stem and dash are the date on which each line was written. */
  predicate NamedByDate(cfg: Config, name: string, f: File) {
    var k := |Stem(cfg.path)| + 1;
    && |name| >= k + 8 && name[..k] == Stem(cfg.path) + "-"
    && forall r :: r in f.records ==> IsDateOf(name[k..k + 8], r.written)
  }

  lemma DayIsDate(f: File, day: string)
    requires OfDay(f, day)
    ensures OneDate(f)
    ensures forall r :: r in f.records ==> IsDateOf(day, r.written)
  {
    forall r | r in f.records ensures IsDateOf(day, r.written) {
      DayKeyReads(r.written);
    }
    forall r, q | r in f.records && q in f.records ensures SameDate(r.written, q.written) {
      DayKeyExactly(r.written, q.written);
    }
  }

  /**
   Single-day files.  With daily rotation, whatever calls fail, wherever the sink is closed
   and even if the clock runs backwards, the lines of every file were written on one UTC date,
   and every archive is named by that date whether the day rule or the size rule made it.
   */
  lemma SingleDayFiles(cfg: Config, s: Sink, events: seq<Event>)
    requires cfg.rotateDaily && SingleDay(cfg, s)
    ensures var t := Run(cfg, s, events);
            && SingleDay(cfg, t)
            && (cfg.path in t.dir ==> OneDate(t.dir[cfg.path]))
            && forall a :: a in t.archives ==> OneDate(t.dir[a]) && NamedByDate(cfg, a, t.dir[a])
  {
    var t := Run(cfg, s, events);
    RunKeepsDays(cfg, s, events);
    if cfg.path in t.dir {
      DayIsDate(t.dir[cfg.path], t.dir[cfg.path].modDay);
    }
    var k := |Stem(cfg.path)| + 1;
    forall a | a in t.archives ensures OneDate(t.dir[a]) && NamedByDate(cfg, a, t.dir[a]) {
      assert NamedByDay(cfg, a, t.dir[a]);
      DayIsDate(t.dir[a], a[k..k + 8]);
    }
  }
}
