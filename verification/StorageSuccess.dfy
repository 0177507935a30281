/** When a write succeeds, exactly, if no system call fails. */
module StorageSuccess {
  import opened Text
  import opened Clock
  import opened Trajectory
  import opened Storage
  import opened StorageConservation

  /** A rotation to this stamp finds a name. */
  predicate HasFreeName(cfg: Config, dir: Directory, stamp: string) {
    exists k :: 0 <= k < 100 && Candidate(RotatedPath(cfg.path, stamp), k) !in dir
  }

  /** The stamp to which a call that adds n bytes rotates the active file, if it does. */
  function RotationStamp(cfg: Config, s: Sink, now: Time, n: nat): Option<string>
    requires Valid(cfg, s)
  {
    if s.open then
      if DayRuleCached(cfg, s, now) || SizeRuleCached(cfg, s, n)
      then Some(ArchiveStamp(s.day, now, DayRuleCached(cfg, s, now))) else None
    else if cfg.path !in s.dir then None
    else if DayRuleOnDisk(cfg, s.dir[cfg.path], now) then Some(ArchiveStamp(s.dir[cfg.path].modDay, now, true))
    else if SizeRuleOnDisk(cfg, s.dir[cfg.path], n) then Some(Stamp(now))
    else None
  }

  predicate CanRotate(cfg: Config, s: Sink, now: Time, n: nat)
    requires Valid(cfg, s)
  {
    var stamp := RotationStamp(cfg, s, now, n);
    stamp.Some? ==> HasFreeName(cfg, s.dir, stamp.value)
  }

  lemma RotatePathSucceeds(cfg: Config, s: Sink, stamp: string)
    requires cfg.path in s.dir
    ensures var r := RotatePath(cfg, s, stamp, {});
            && (r.error == None <==> HasFreeName(cfg, s.dir, stamp))
            && (r.error != None ==> r.error == Some(NoFreeName) && r.sink.dir == s.dir)
            && (r.error == None ==> cfg.path !in r.sink.dir && |r.sink.archives| == |s.archives| + 1)
            && r.sink.open == s.open
  {
    var dest := RotatedPath(cfg.path, stamp);
    FreeNameIsFree(s.dir, dest, 0, {});
    NoFaultNoError(s.dir, dest, 0);
    var r := FreeName(s.dir, dest, 0, {});
    if r.Ok? {
      var k :| 0 <= k < ARCHIVE_NAMES && r.value == Candidate(dest, k);
      ArchiveIsNotActive(cfg.path, stamp, k);
    }
  }

  /** What a fault-free EnsureWriter leaves: a handle on today's file, at most one archive more. */
  predicate Prepared(cfg: Config, s: Sink, w: Sink, now: Time) {
    && w.open && !DayRuleCached(cfg, w, now)
    && |w.archives| <= |s.archives| + 1
  }

  lemma OpenActiveSucceeds(cfg: Config, s: Sink, now: Time)
    ensures var w := OpenActive(cfg, s, now, {});
            w.error == None && w.sink.open && w.sink.day == DayKey(now) && w.sink.archives == s.archives
  {
  }

  lemma OpenFromDiskSucceeds(cfg: Config, s: Sink, now: Time, n: nat)
    requires Valid(cfg, s) && !s.open
    ensures var w := OpenFromDisk(cfg, s, now, n, {});
            && (w.error == None <==> CanRotate(cfg, s, now, n))
            && (w.error == None ==> Prepared(cfg, s, w.sink, now))
            && (w.error != None ==> w.error == Some(NoFreeName) && w.sink.dir == s.dir)
  {
    OpenActiveSucceeds(cfg, s, now);
    if cfg.path in s.dir {
      var byDay, bySize := ArchiveStamp(s.dir[cfg.path].modDay, now, true), ArchiveStamp("", now, false);
      RotatePathSucceeds(cfg, s, byDay);
      RotatePathSucceeds(cfg, s, bySize);
      OpenActiveSucceeds(cfg, RotatePath(cfg, s, byDay, {}).sink, now);
      OpenActiveSucceeds(cfg, RotatePath(cfg, s, bySize, {}).sink, now);
    }
  }

  lemma EnsureWriterSucceeds(cfg: Config, s: Sink, now: Time, n: nat)
    requires Valid(cfg, s)
    ensures var w := EnsureWriter(cfg, s, now, n, {});
            && (w.error == None <==> CanRotate(cfg, s, now, n))
            && (w.error == None ==> Prepared(cfg, s, w.sink, now))
            && (w.error != None ==> w.error == Some(NoFreeName) && w.sink.dir == s.dir)
  {
    if !s.open {
      OpenFromDiskSucceeds(cfg, s, now, n);
    } else if DayRuleCached(cfg, s, now) || SizeRuleCached(cfg, s, n) {
      var stamp := ArchiveStamp(s.day, now, DayRuleCached(cfg, s, now));
      RotatePathSucceeds(cfg, Closed(s), stamp);
      var r := Rotate(cfg, s, stamp, {});
      assert r == RotatePath(cfg, Closed(s), stamp, {});
      if r.error == None {
        OpenActiveSucceeds(cfg, r.sink, now);
      }
    }
  }

  /** What is refused before any file is touched, in this order. */
  lemma RefusalExactly(cfg: Config, s: Sink, req: Request)
    requires Valid(cfg, s)
    ensures var m, r := req.frame.sanitizer, Refusal(req);
            var safe := m.sanitizerVersion != "" && m.decision == Accept && req.frame.sanitizedAt != ZERO_TIME;
            && (r == Some(Canceled) <==> req.canceled)
            && (r == Some(UnsafeFrame) <==> !req.canceled && !safe)
            && (r == Some(NotMarshaled) <==> !req.canceled && safe && req.encoded == None)
            && (r == None <==> !req.canceled && safe && req.encoded != None)
            && (r != None ==> Write(cfg, s, req) == Outcome(s, r))
  {
  }

  /**
   Without failing calls a write succeeds exactly when the frame is not refused and, if the
   call has to rotate, one of the hundred names is free.
   */
  lemma WriteSucceedsExactly(cfg: Config, s: Sink, req: Request)
    requires Valid(cfg, s) && req.faults == {}
    ensures var o := Write(cfg, s, req);
            && (o.error == None <==> Refusal(req).None? && CanRotate(cfg, s, req.now, |Line(req)|))
            && (o.error == None ==> Prepared(cfg, s, o.sink, req.now))
            && (o.error != None ==>
                  o.sink.dir == s.dir && o.error == if Refusal(req).Some? then Refusal(req) else Some(NoFreeName))
  {
    if Refusal(req).None? {
      EnsureWriterSucceeds(cfg, s, req.now, |Line(req)|);
      EnsureWriterOpens(cfg, s, req.now, |Line(req)|, {});
    }
  }

  // ----- two writes at the same instant -----

  predicate HasTwoFreeNames(cfg: Config, dir: Directory, stamp: string) {
    exists j, k :: 0 <= j < k < ARCHIVE_NAMES
                   && Candidate(RotatedPath(cfg.path, stamp), j) !in dir
                   && Candidate(RotatedPath(cfg.path, stamp), k) !in dir
  }

  lemma SuffixesDiffer(dest: string, a: string, b: string)
    requires a != b
    ensures dest + "." + a != dest + "." + b
  {
    PrefixDrops(dest + ".", a);
    PrefixDrops(dest + ".", b);
  }

  lemma CandidatesDiffer(dest: string, j: nat, k: nat)
    requires j < k
    ensures Candidate(dest, j) != Candidate(dest, k)
  {
    if j == 0 {
      assert |Candidate(dest, k)| > |dest|;
    } else {
      if Dec(j) == Dec(k) {
        DecInjective(j, k);
      }
      SuffixesDiffer(dest, Dec(j), Dec(k));
    }
  }

  /** One step that adds at most one archive leaves one of two free names. */
  lemma OneNameRemains(cfg: Config, s: Sink, t: Sink, stamp: string)
    requires Tracked(cfg, s) && Grows(cfg, s, t) && |t.archives| <= |s.archives| + 1
    requires HasTwoFreeNames(cfg, s.dir, stamp)
    ensures HasFreeName(cfg, t.dir, stamp)
  {
    var dest := RotatedPath(cfg.path, stamp);
    var j, k :| 0 <= j < k < ARCHIVE_NAMES && Candidate(dest, j) !in s.dir && Candidate(dest, k) !in s.dir;
    CandidatesDiffer(dest, j, k);
    TakenName(cfg, s, t, stamp, j);
    TakenName(cfg, s, t, stamp, k);
  }

  lemma TakenName(cfg: Config, s: Sink, t: Sink, stamp: string, i: nat)
    requires Tracked(cfg, s) && Grows(cfg, s, t) && |t.archives| <= |s.archives| + 1
    ensures var name := Candidate(RotatedPath(cfg.path, stamp), i);
            name !in s.dir && name in t.dir ==>
              |t.archives| == |s.archives| + 1 && t.archives[|s.archives|] == name
  {
    var name := Candidate(RotatedPath(cfg.path, stamp), i);
    ArchiveIsNotActive(cfg.path, stamp, i);
    if name !in s.dir && name in t.dir {
      assert name in t.archives && name !in s.archives;
      assert t.archives == s.archives + t.archives[|s.archives|..];
    }
  }

  /** A second write at the same instant can only rotate by size, and finds a name. */
  lemma SecondWriteSucceeds(cfg: Config, s: Sink, first: Request, second: Request)
    requires Valid(cfg, s) && Tracked(cfg, s) && HasTwoFreeNames(cfg, s.dir, Stamp(first.now))
    requires first.faults == second.faults == {} && first.now == second.now
    requires Write(cfg, s, first).error == None && Refusal(second) == None
    ensures var w := Write(cfg, s, first).sink;
            Valid(cfg, w) && Write(cfg, w, second).error == None
  {
    var w := Write(cfg, s, first).sink;
    WriteSucceedsExactly(cfg, s, first);
    WriteConserves(cfg, s, first);
    assert w == Next(cfg, s, WriteEvent(first)).sink;
    OneNameRemains(cfg, s, w, Stamp(first.now));
    WriteSucceedsExactly(cfg, w, second);
  }
}
