/**
 The sink as the object it is: fields updated in place, a rename loop over candidate
 names, and early returns.  Each method computes the transition of module Storage.
 */
module JSONLSinkObject {
  import opened Text
  import opened Clock
  import opened Storage

  datatype Opened<T> = Opened(sink: T) | PathRequired | NoDirectory | NegativeMaxBytes

  class JSONLSink {
    const cfg: Config
    var dir: Directory
    var file: bool
    var size: nat
    var day: string
    ghost var archives: seq<string>

    ghost function State(): Sink
      reads this
    {
      Sink(dir, file, size, day, archives)
    }

    constructor (cfg: Config, dir: Directory)
      ensures this.cfg == cfg && State() == Sink(dir, false, 0, "", [])
      ensures Valid(cfg, State())
    {
      this.cfg := cfg;
      this.dir := dir;
      file, size, day, archives := false, 0, "", [];
    }

    /** NewJSONLSinkWithOptions. */
    static method Open(path: string, maxBytes: int, rotateDaily: bool, sync: bool, dir: Directory,
                       mkdirFails: bool)
      returns (r: Opened<JSONLSink>)
      ensures r.PathRequired? <==> path == ""
      ensures r.NoDirectory? <==> path != "" && mkdirFails
      ensures r.NegativeMaxBytes? <==> path != "" && !mkdirFails && maxBytes < 0
      ensures r.Opened? ==>
                && fresh(r.sink)
                && r.sink.cfg == Config(path, maxBytes, rotateDaily, sync)
                && r.sink.State() == Sink(dir, false, 0, "", [])
    {
      if path == "" {
        return PathRequired;
      }
      if mkdirFails {
        return NoDirectory;
      }
      if maxBytes < 0 {
        return NegativeMaxBytes;
      }
      var s := new JSONLSink(Config(path, maxBytes, rotateDaily, sync), dir);
      return Opened(s);
    }

    method CloseFile(faults: set<Op>) returns (err: Option<WriteError>)
      requires Valid(cfg, State())
      modifies this`file, this`size, this`day
      ensures Outcome(State(), err) == Storage.CloseFile(old(State()), faults)
    {
      if !file {
        return None;
      }
      err := if CloseOp in faults then Some(OpFailed(CloseOp)) else None;
      file := false;
      size := 0;
      day := "";
    }

    /** Close: safe to call any number of times. */
    method Close(faults: set<Op>) returns (err: Option<WriteError>)
      requires Valid(cfg, State())
      modifies this`file, this`size, this`day
      ensures State() == Closed(old(State())) && Valid(cfg, State())
      ensures !old(file) ==> State() == old(State())
      ensures err == if old(file) && CloseOp in faults then Some(OpFailed(CloseOp)) else None
    {
      err := CloseFile(faults);
    }

    method RotatePathLocked(stamp: string, faults: set<Op>) returns (err: Option<WriteError>)
      modifies this`dir, this`archives
      ensures Outcome(State(), err) == RotatePath(cfg, old(State()), stamp, faults)
    {
      if StatForRotateOp in faults {
        return Some(OpFailed(StatForRotateOp));
      }
      if cfg.path !in dir {
        return None;
      }
      var dest := RotatedPath(cfg.path, stamp);
      var i := 0;
      while i < ARCHIVE_NAMES
        invariant 0 <= i <= ARCHIVE_NAMES
        invariant State() == old(State())
        invariant FreeName(dir, dest, 0, faults) == FreeName(dir, dest, i, faults)
      {
        var candidate := dest;
        if i > 0 {
          candidate := dest + "." + Dec(i);
        }
        if StatArchiveOp(i) in faults {
          return Some(OpFailed(StatArchiveOp(i)));
        }
        if candidate !in dir {
          if RenameOp in faults {
            return Some(OpFailed(RenameOp));
          }
          dir := (dir - {cfg.path})[candidate := dir[cfg.path]];
          archives := archives + [candidate];
          return None;
        }
        i := i + 1;
      }
      return Some(NoFreeName);
    }

    method RotateLocked(stamp: string, faults: set<Op>) returns (err: Option<WriteError>)
      requires Valid(cfg, State())
      modifies this
      ensures Outcome(State(), err) == Rotate(cfg, old(State()), stamp, faults)
    {
      err := CloseFile(faults);
      if err.Some? {
        return;
      }
      err := RotatePathLocked(stamp, faults);
    }

    /** The part of ensureWriter taken when no handle is open. */
    method OpenFromDisk(now: Time, nextWriteBytes: nat, faults: set<Op>) returns (err: Option<WriteError>)
      requires Valid(cfg, State()) && !file
      modifies this
      ensures Outcome(State(), err) == Storage.OpenFromDisk(cfg, old(State()), now, nextWriteBytes, faults)
    {
      var today := DayKey(now);
      if StatActiveOp in faults {
        return Some(OpFailed(StatActiveOp));
      }
      var present := cfg.path in dir;
      if present {
        var fileSize := Bytes(dir[cfg.path].records);
        if cfg.rotateDaily {
          var fileDay := dir[cfg.path].modDay;
          if fileDay != today && fileSize > 0 {
            err := RotatePathLocked(ArchiveStamp(fileDay, now, true), faults);
            if err.Some? {
              return;
            }
            present := false;
          }
        }
        if present && cfg.maxBytes > 0 && fileSize + nextWriteBytes > cfg.maxBytes && fileSize > 0 {
          err := RotatePathLocked(ArchiveStamp("", now, false), faults);
          if err.Some? {
            return;
          }
        }
      }
      if OpenOp in faults {
        return Some(OpFailed(OpenOp));
      }
      if cfg.path !in dir {
        dir := dir[cfg.path := File([], today)];
      }
      var length := 0;
      if StatOpenedOp !in faults {
        length := Bytes(dir[cfg.path].records);
      }
      file, size, day := true, length, today;
      return None;
    }

    method EnsureWriter(now: Time, nextWriteBytes: nat, faults: set<Op>) returns (err: Option<WriteError>)
      requires Valid(cfg, State())
      modifies this
      ensures Outcome(State(), err) == Storage.EnsureWriter(cfg, old(State()), now, nextWriteBytes, faults)
    {
      var today := DayKey(now);
      if file {
        var dayBoundary := cfg.rotateDaily && day != "" && today != day;
        var sizeLimit := cfg.maxBytes > 0 && size + nextWriteBytes > cfg.maxBytes;
        if dayBoundary || sizeLimit {
          err := RotateLocked(ArchiveStamp(day, now, dayBoundary), faults);
          if err.Some? {
            return;
          }
        }
      }
      if file {
        return None;
      }
      err := OpenFromDisk(now, nextWriteBytes, faults);
    }

    method WriteSanitizedFrame(req: Request) returns (err: Option<WriteError>)
      requires Valid(cfg, State())
      modifies this
      ensures Valid(cfg, State())
      ensures Outcome(State(), err) == Write(cfg, old(State()), req)
    {
      if req.canceled {
        return Some(Canceled);
      }
      if !Safe(req.frame) {
        return Some(UnsafeFrame);
      }
      if req.encoded.None? {
        return Some(NotMarshaled);
      }
      var payload := req.encoded.value + "\n";
      EnsureWriterOpens(cfg, State(), req.now, |payload|, req.faults);
      err := EnsureWriter(req.now, |payload|, req.faults);
      if err.Some? {
        return;
      }
      if WriteOp in req.faults {
        return Some(OpFailed(WriteOp));
      }
      dir := dir[cfg.path := File(dir[cfg.path].records + [Record(req.frame, payload, req.now)],
                                  DayKey(req.now))];
      size := size + |payload|;
      if cfg.sync && SyncOp in req.faults {
        return Some(OpFailed(SyncOp));
      }
      return None;
    }
  }
}
