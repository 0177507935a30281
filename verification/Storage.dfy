/**
 The JSONL sink of server/internal/storage/storage.go as a transition function over
 the storage directory and the open handle.

 Every operating-system call can be made to fail: a request carries the set of calls
 that fail while it is served.  A failing write puts no byte in the file.
 */
module Storage {
  import opened Text
  import opened Clock
  import opened Trajectory

  /** One stored line, with the frame it encodes and the instant at which it was appended. */
  datatype Record = Record(frame: SanitizedFrame, line: string, written: Time)

  /** A file: its lines, and the UTC day of its modification time. */
  datatype File = File(records: seq<Record>, modDay: string)

  /** The storage directory, by file name. */
  type Directory = map<string, File>

  datatype Config = Config(path: string, maxBytes: nat, rotateDaily: bool, sync: bool)

  datatype Op =
    | CloseOp | StatActiveOp | StatForRotateOp | StatArchiveOp(i: nat) | RenameOp
    | OpenOp | StatOpenedOp | WriteOp | SyncOp

  datatype WriteError = Canceled | UnsafeFrame | NotMarshaled | NoFreeName | OpFailed(op: Op)

  /**
   The directory and the fields `file`, `size` and `day` of the sink.  `archives` is a
   history variable: the names given by rotation, oldest first.
   */
  datatype Sink = Sink(dir: Directory, open: bool, size: nat, day: string, archives: seq<string>)

  /** The new state and Go's error return. */
  datatype Outcome = Outcome(sink: Sink, error: Option<WriteError>)

  /** One call of WriteSanitizedFrame; `encoded` is what json.Marshal makes of the frame. */
  datatype Request = Request(
    frame: SanitizedFrame, encoded: Option<string>, canceled: bool, now: Time, faults: set<Op>)

  function Bytes(rs: seq<Record>): nat {
    if rs == [] then 0 else Bytes(rs[..|rs| - 1]) + |rs[|rs| - 1].line|
  }

  predicate Safe(frame: SanitizedFrame) {
    && frame.sanitizer.sanitizerVersion != ""
    && frame.sanitizer.decision == Accept
    && !IsZero(frame.sanitizedAt)
  }

  // ----- archive names -----

  /** filepath.Ext: the suffix from the last dot, or nothing. */
  function Ext(base: string): (e: string)
    ensures |e| <= |base| && e == base[|base| - |e|..]
  {
    if base == "" then ""
    else if base[|base| - 1] == '.' then "."
    else
      var e := Ext(base[..|base| - 1]);
      if e == "" then "" else e + [base[|base| - 1]]
  }

  function Stem(base: string): string {
    base[..|base| - |Ext(base)|]
  }

  function RotatedPath(base: string, stamp: string): string {
    var ext := if Ext(base) == "" then ".jsonl" else Ext(base);
    Stem(base) + "-" + stamp + ext
  }

  function Candidate(dest: string, i: nat): string {
    if i == 0 then dest else dest + "." + Dec(i)
  }

  function ArchiveStamp(dataDay: string, now: Time, dayBoundary: bool): string {
    if dayBoundary && dataDay != "" then dataDay else Stamp(now)
  }

  const ARCHIVE_NAMES: nat := 100

  /** The first unused candidate from index i on. */
  function FreeName(dir: Directory, dest: string, i: nat, faults: set<Op>): Result<string, WriteError>
    decreases ARCHIVE_NAMES - i
  {
    if i >= ARCHIVE_NAMES then Err(NoFreeName)
    else if StatArchiveOp(i) in faults then Err(OpFailed(StatArchiveOp(i)))
    else if Candidate(dest, i) !in dir then Ok(Candidate(dest, i))
    else FreeName(dir, dest, i + 1, faults)
  }

  // ----- the sink's operations -----

  function Closed(s: Sink): Sink {
    s.(open := false, size := 0, day := "")
  }

  function CloseFile(s: Sink, faults: set<Op>): Outcome {
    if !s.open then Outcome(s, None)
    else Outcome(Closed(s), if CloseOp in faults then Some(OpFailed(CloseOp)) else None)
  }

  function Rename(cfg: Config, s: Sink, name: string): Sink
    requires cfg.path in s.dir
  {
    s.(dir := (s.dir - {cfg.path})[name := s.dir[cfg.path]], archives := s.archives + [name])
  }

  function RotatePath(cfg: Config, s: Sink, stamp: string, faults: set<Op>): Outcome {
    if StatForRotateOp in faults then Outcome(s, Some(OpFailed(StatForRotateOp)))
    else if cfg.path !in s.dir then Outcome(s, None)
    else
      match FreeName(s.dir, RotatedPath(cfg.path, stamp), 0, faults)
      case Err(e) => Outcome(s, Some(e))
      case Ok(name) =>
        if RenameOp in faults then Outcome(s, Some(OpFailed(RenameOp)))
        else Outcome(Rename(cfg, s, name), None)
  }

  function Rotate(cfg: Config, s: Sink, stamp: string, faults: set<Op>): Outcome {
    var c := CloseFile(s, faults);
    if c.error.Some? then c else RotatePath(cfg, c.sink, stamp, faults)
  }

  /** Open the active file for append, creating it when it is missing. */
  function OpenActive(cfg: Config, s: Sink, now: Time, faults: set<Op>): Outcome {
    if OpenOp in faults then Outcome(s, Some(OpFailed(OpenOp)))
    else
      var dir := if cfg.path in s.dir then s.dir else s.dir[cfg.path := File([], DayKey(now))];
      var size := if StatOpenedOp in faults then 0 else Bytes(dir[cfg.path].records);
      Outcome(s.(dir := dir, open := true, size := size, day := DayKey(now)), None)
  }

  function OpenAfter(cfg: Config, r: Outcome, now: Time, faults: set<Op>): Outcome {
    if r.error.Some? then r else OpenActive(cfg, r.sink, now, faults)
  }

  predicate DayRuleOnDisk(cfg: Config, f: File, now: Time) {
    cfg.rotateDaily && f.modDay != DayKey(now) && Bytes(f.records) > 0
  }

  predicate SizeRuleOnDisk(cfg: Config, f: File, n: nat) {
    cfg.maxBytes > 0 && Bytes(f.records) + n > cfg.maxBytes && Bytes(f.records) > 0
  }

  /** The path taken without an open handle: decide from the file on disk, then open. */
  function OpenFromDisk(cfg: Config, s: Sink, now: Time, n: nat, faults: set<Op>): Outcome {
    if StatActiveOp in faults then Outcome(s, Some(OpFailed(StatActiveOp)))
    else if cfg.path !in s.dir then OpenActive(cfg, s, now, faults)
    else
      var f := s.dir[cfg.path];
      if DayRuleOnDisk(cfg, f, now) then
        OpenAfter(cfg, RotatePath(cfg, s, ArchiveStamp(f.modDay, now, true), faults), now, faults)
      else if SizeRuleOnDisk(cfg, f, n) then
        OpenAfter(cfg, RotatePath(cfg, s, ArchiveStamp("", now, false), faults), now, faults)
      else OpenActive(cfg, s, now, faults)
  }

  predicate DayRuleCached(cfg: Config, s: Sink, now: Time) {
    cfg.rotateDaily && s.day != "" && DayKey(now) != s.day
  }

  predicate SizeRuleCached(cfg: Config, s: Sink, n: nat) {
    cfg.maxBytes > 0 && s.size + n > cfg.maxBytes
  }

  function EnsureWriter(cfg: Config, s: Sink, now: Time, n: nat, faults: set<Op>): Outcome {
    if !s.open then OpenFromDisk(cfg, s, now, n, faults)
    else if !DayRuleCached(cfg, s, now) && !SizeRuleCached(cfg, s, n) then Outcome(s, None)
    else
      var r := Rotate(cfg, s, ArchiveStamp(s.day, now, DayRuleCached(cfg, s, now)), faults);
      if r.error.Some? then r else OpenFromDisk(cfg, r.sink, now, n, faults)
  }

  function Append(cfg: Config, s: Sink, rec: Record): Sink
    requires cfg.path in s.dir
  {
    var f := File(s.dir[cfg.path].records + [rec], DayKey(rec.written));
    s.(dir := s.dir[cfg.path := f], size := s.size + |rec.line|)
  }

  function WriteLine(cfg: Config, s: Sink, rec: Record, faults: set<Op>): Outcome
    requires cfg.path in s.dir
  {
    if WriteOp in faults then Outcome(s, Some(OpFailed(WriteOp)))
    else
      Outcome(Append(cfg, s, rec),
              if cfg.sync && SyncOp in faults then Some(OpFailed(SyncOp)) else None)
  }

  function Line(req: Request): string
    requires req.encoded.Some?
  {
    req.encoded.value + "\n"
  }

  function RecordOf(req: Request): Record
    requires req.encoded.Some?
  {
    Record(req.frame, Line(req), req.now)
  }

  /** The checks made before the lock is taken. */
  function Refusal(req: Request): Option<WriteError> {
    if req.canceled then Some(Canceled)
    else if !Safe(req.frame) then Some(UnsafeFrame)
    else if req.encoded.None? then Some(NotMarshaled)
    else None
  }

  function Write(cfg: Config, s: Sink, req: Request): Outcome
    requires Valid(cfg, s)
  {
    if Refusal(req).Some? then Outcome(s, Refusal(req))
    else
      var w := EnsureWriter(cfg, s, req.now, |Line(req)|, req.faults);
      if w.error.Some? then w
      else
        EnsureWriterOpens(cfg, s, req.now, |Line(req)|, req.faults);
        WriteLine(cfg, w.sink, RecordOf(req), req.faults)
  }

  /** An open handle is on the active file; a closed one has the zero size and day. */
  predicate Valid(cfg: Config, s: Sink) {
    && (s.open ==> cfg.path in s.dir && s.day != "")
    && (!s.open ==> s.size == 0 && s.day == "")
  }

  lemma EnsureWriterOpens(cfg: Config, s: Sink, now: Time, n: nat, faults: set<Op>)
    requires Valid(cfg, s)
    ensures var w := EnsureWriter(cfg, s, now, n, faults);
            Valid(cfg, w.sink) && (w.error.None? ==> w.sink.open)
  {
    if !s.open {
      OpenFromDiskOpens(cfg, s, now, n, faults);
    } else {
      var stamp := ArchiveStamp(s.day, now, DayRuleCached(cfg, s, now));
      RotateCloses(cfg, s, stamp, faults);
      var r := Rotate(cfg, s, stamp, faults);
      OpenFromDiskOpens(cfg, r.sink, now, n, faults);
    }
  }

  lemma RotateCloses(cfg: Config, s: Sink, stamp: string, faults: set<Op>)
    requires s.open || Valid(cfg, s)
    ensures var r := Rotate(cfg, s, stamp, faults).sink;
            !r.open && r.size == 0 && r.day == ""
  {
  }

  lemma OpenFromDiskOpens(cfg: Config, s: Sink, now: Time, n: nat, faults: set<Op>)
    requires !s.open && Valid(cfg, s)
    ensures var w := OpenFromDisk(cfg, s, now, n, faults);
            Valid(cfg, w.sink) && (w.error.None? <==> w.sink.open)
  {
    if cfg.path in s.dir {
      var f := s.dir[cfg.path];
      RotateCloses(cfg, s, ArchiveStamp(f.modDay, now, true), faults);
      RotateCloses(cfg, s, ArchiveStamp("", now, false), faults);
    }
  }

  /** The line of a call reached the file: it succeeded, or only the final fsync failed. */
  predicate Landed(e: Option<WriteError>) {
    e == None || e == Some(OpFailed(SyncOp))
  }

  // ----- runs -----

  datatype Event = WriteEvent(req: Request) | CloseEvent

  function Next(cfg: Config, s: Sink, e: Event): Outcome
    requires Valid(cfg, s)
    ensures Valid(cfg, Next(cfg, s, e).sink)
  {
    match e
    case CloseEvent => Outcome(Closed(s), None)
    case WriteEvent(req) =>
      EnsureWriterOpens(cfg, s, req.now, if req.encoded.Some? then |Line(req)| else 0, req.faults);
      Write(cfg, s, req)
  }

  /** The state after a history of calls; a restarted process starts from a closed handle. */
  function Run(cfg: Config, s: Sink, events: seq<Event>): (r: Sink)
    requires Valid(cfg, s)
    ensures Valid(cfg, r)
  {
    if events == [] then s
    else Next(cfg, Run(cfg, s, events[..|events| - 1]), events[|events| - 1]).sink
  }

  /** What the calls of a history returned, in order; CloseEvent returns nothing. */
  function Answers(cfg: Config, s: Sink, events: seq<Event>): seq<Option<WriteError>>
    requires Valid(cfg, s)
  {
    if events == [] then []
    else
      var before := events[..|events| - 1];
      var e := events[|events| - 1];
      Answers(cfg, s, before) +
      if e.WriteEvent? then [Next(cfg, Run(cfg, s, before), e).error] else []
  }
}
