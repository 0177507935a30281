/**
 Service.IngestFrame over the guard, pipeline and sink objects: one request from start to
 end, and its place in the concurrent machine.
 */
module IngestService {
  import opened Text
  import opened Clock
  import opened Trajectory
  import opened Signing
  import opened Verifier
  import opened SanitizePipeline
  import opened Ingest
  import opened StorageConservation
  import opened StorageSuccess
  import Sqlite = SqliteGuard
  import Paths = SanitizePaths
  import Decisions = SanitizeDecisions
  import Storage
  import Sinks = JSONLSinkObject

  datatype Reply =
    | AuthRejected(error: AuthError)
    | PayloadMalformed
    | IdentitiesDiffer
    | Decided(decision: Decision, reasonCodes: seq<string>, sanitizerVersion: string)
    | StorageFailed

  /** What one request meets on its way: clock readings, cancellation and failing calls. */
  datatype Circumstances = Circumstances(
    guardFault: Sqlite.Fault, sanitizedAt: Time, canceled: bool, writtenAt: Time, faults: set<Storage.Op>)

  /** Sanitize a bound frame and write what comes out. */
  ghost function Finish(v: Server, sink: Storage.Sink, f: RawFrame, c: Circumstances)
    : (Storage.Sink, Reply)
    requires Storage.Valid(v.storage, sink)
  {
    var r := ProcessFrame(v.settings, f, c.sanitizedAt);
    if r.failed then (sink, Decided(Drop, ["sanitizer_error"], r.sanitizerVersion))
    else if r.decision != Accept || r.frame.None? then
      (sink, Decided(r.decision, r.reasonCodes, r.sanitizerVersion))
    else
      var req := WriteRequest(v, r.frame.value, c.canceled, c.writtenAt, c.faults);
      var o := Storage.Write(v.storage, sink, req);
      (o.sink,
       if o.error.Some? then StorageFailed else Decided(Accept, r.reasonCodes, r.sanitizerVersion))
  }

  /** The tables and the store after one request served alone, and the reply. */
  ghost function Serve(v: Server, tables: Sqlite.Tables, sink: Storage.Sink, a: Attempt, c: Circumstances)
    : (Sqlite.Tables, Storage.Sink, Reply)
    requires Storage.Valid(v.storage, sink)
  {
    var (tables', err) := Verdict(v.crypto, v.policy, v.registry, tables, a, c.guardFault);
    if err.Some? then (tables', sink, AuthRejected(err.value))
    else if v.decode(a.envelope.payload).None? then (tables', sink, PayloadMalformed)
    else if Payload(v, a.envelope).None? then (tables', sink, IdentitiesDiffer)
    else
      var (sink', reply) := Finish(v, sink, Payload(v, a.envelope).value, c);
      (tables', sink', reply)
  }

  /** bindEnvelopeToFrame: fills empty identifiers in place, then compares all five. */
  method BindEnvelopeToFrame(e: SignedEnvelope, f: RawFrame) returns (frame: RawFrame, ok: bool)
    ensures frame == Filled(e, f)
    ensures ok == SameIdentity(e, frame)
  {
    frame := f;
    if frame.protocolVersion == "" {
      frame := frame.(protocolVersion := e.protocolVersion);
    }
    if frame.trajectoryId == "" {
      frame := frame.(trajectoryId := e.trajectoryId);
    }
    if frame.frameId == "" {
      frame := frame.(frameId := e.frameId);
    }
    if frame.device.deviceId == "" {
      frame := frame.(device := frame.device.(deviceId := e.deviceId));
    }
    if frame.protocolVersion != e.protocolVersion
       || frame.trajectoryId != e.trajectoryId
       || frame.frameId != e.frameId
       || frame.sequence != e.sequence
       || frame.device.deviceId != e.deviceId {
      return frame, false;
    }
    return frame, true;
  }

  class Service {
    const verifier: DurableVerifier
    const pipeline: Pipeline
    const sink: Sinks.JSONLSink
    const decode: string -> Option<RawFrame>
    const encode: SanitizedFrame -> Option<string>

    constructor (verifier: DurableVerifier, pipeline: Pipeline, sink: Sinks.JSONLSink,
                 decode: string -> Option<RawFrame>, encode: SanitizedFrame -> Option<string>)
      ensures this.verifier == verifier && this.pipeline == pipeline && this.sink == sink
      ensures this.decode == decode && this.encode == encode
    {
      this.verifier, this.pipeline, this.sink := verifier, pipeline, sink;
      this.decode, this.encode := decode, encode;
    }

    ghost function Setup(): Server
      reads pipeline
    {
      Server(verifier.crypto, verifier.policy, verifier.registry, pipeline.InForce(),
             decode, encode, sink.cfg)
    }

    method IngestFrame(a: Attempt, c: Circumstances) returns (reply: Reply)
      requires Storage.Valid(sink.cfg, sink.State())
      requires forall p :: decode(p).Some? ==> GoSized(decode(p).value.uiRoot)
      modifies verifier.guard, pipeline, sink
      ensures Setup() == old(Setup()) && Storage.Valid(sink.cfg, sink.State())
      ensures (verifier.guard.db, sink.State(), reply) ==
              Serve(old(Setup()), old(verifier.guard.db), old(sink.State()), a, c)
    {
      var err := verifier.Verify(a, c.guardFault);
      if err.Some? {
        return AuthRejected(err.value);
      }
      var decoded := decode(a.envelope.payload);
      if decoded.None? {
        return PayloadMalformed;
      }
      var frame, ok := BindEnvelopeToFrame(a.envelope, decoded.value);
      if !ok {
        return IdentitiesDiffer;
      }
      frame := frame.(signature := SignatureMetadata(
        a.envelope.signatureAlg, a.envelope.publicKeyId, a.envelope.payloadSha256Hex, "verified"));
      var result := pipeline.Process(frame, c.sanitizedAt);
      if result.failed {
        return Decided(Drop, ["sanitizer_error"], result.sanitizerVersion);
      }
      if result.decision != Accept || result.frame.None? {
        return Decided(result.decision, result.reasonCodes, result.sanitizerVersion);
      }
      var out := result.frame.value;
      var failure := sink.WriteSanitizedFrame(
        Storage.Request(out, encode(out), c.canceled, c.writtenAt, c.faults));
      if failure.Some? {
        return StorageFailed;
      }
      return Decided(Accept, result.reasonCodes, result.sanitizerVersion);
    }
  }

  // ----- a request alone is four steps of the machine -----

  ghost function WriteAlone(v: Server, s: State, k: nat, c: Circumstances): State
    requires Storage.Valid(v.storage, s.sink)
  {
    Next(v, s, WriteStep(k, c.canceled, c.writtenAt, c.faults))
  }

  ghost function SanitizeAlone(v: Server, s: State, k: nat, c: Circumstances): (t: State)
    requires Storage.Valid(v.storage, s.sink)
    ensures t.sink == s.sink
  {
    Next(v, s, SanitizeStep(k, c.sanitizedAt))
  }

  ghost function BindAlone(v: Server, s: State, k: nat): (t: State)
    requires Storage.Valid(v.storage, s.sink)
    ensures t.sink == s.sink
  {
    Next(v, s, BindStep(k))
  }

  ghost function AdmitAlone(v: Server, s: State, a: Attempt, c: Circumstances): (t: State)
    requires Storage.Valid(v.storage, s.sink)
    ensures t.sink == s.sink
  {
    Next(v, s, Admit(a, c.guardFault))
  }

  /** The four steps of one request with nothing in between. */
  ghost function Steps(v: Server, s: State, a: Attempt, c: Circumstances): State
    requires Storage.Valid(v.storage, s.sink)
  {
    var k := |s.admitted|;
    WriteAlone(v, SanitizeAlone(v, BindAlone(v, AdmitAlone(v, s, a, c), k), k, c), k, c)
  }

  /** A request that is no longer in flight takes no further step. */
  lemma Idle(v: Server, s: State, k: nat, c: Circumstances)
    requires Storage.Valid(v.storage, s.sink) && k !in s.inflight
    ensures BindAlone(v, s, k) == SanitizeAlone(v, s, k, c) == WriteAlone(v, s, k, c) == s
  {
  }

  /** Same tables and same others in flight. */
  predicate Settled(s: State, t: State, tables: Sqlite.Tables, sink: Storage.Sink, others: map<nat, Phase>) {
    t.tables == tables && t.sink == sink && t.inflight == others
  }

  lemma WriteSettles(v: Server, s: State, others: map<nat, Phase>, k: nat, g: SanitizedFrame, c: Circumstances)
    requires Storage.Valid(v.storage, s.sink) && k !in others && s.inflight == others[k := Ready(g)]
    ensures var t := WriteAlone(v, s, k, c);
            var o := Storage.Write(v.storage, s.sink, WriteRequest(v, g, c.canceled, c.writtenAt, c.faults));
            && Settled(s, t, s.tables, o.sink, others)
            && (o.error.None? ==> t.storedBy == s.storedBy + [k])
            && (t.storedBy != s.storedBy ==> o.error.None? || (Storage.SyncOp in c.faults && v.storage.sync))
  {
    LandedWhen(v.storage, s.sink, WriteRequest(v, g, c.canceled, c.writtenAt, c.faults));
    assert s.inflight - {k} == others;
  }

  lemma SanitizeSettles(v: Server, s: State, others: map<nat, Phase>, k: nat, f: RawFrame, c: Circumstances)
    requires Storage.Valid(v.storage, s.sink) && k !in others && s.inflight == others[k := Bound(f)]
    ensures var t := SanitizeAlone(v, s, k, c);
            var r := ProcessFrame(v.settings, f, c.sanitizedAt);
            && t.tables == s.tables && t.storedBy == s.storedBy
            && if !r.failed && r.decision == Accept && r.frame.Some?
               then t.inflight == others[k := Ready(r.frame.value)]
               else t.inflight == others
  {
    assert s.inflight - {k} == others;
  }

  lemma BindSettles(v: Server, s: State, others: map<nat, Phase>, k: nat, c: Circumstances)
    requires Storage.Valid(v.storage, s.sink) && k !in others && s.inflight == others[k := Admitted]
    requires k < |s.admitted|
    ensures var t := BindAlone(v, s, k);
            var f := Payload(v, s.admitted[k].envelope);
            && t.tables == s.tables && t.storedBy == s.storedBy
            && t.inflight == if f.Some? then others[k := Bound(f.value)] else others
  {
    assert s.inflight - {k} == others;
  }

  /**
   Serving a request alone does what its four steps do: the same tables, the same store and
   nothing left in flight.  A reply of accept means that the attempt's line is stored, and a
   line stored without it means that only the final fsync failed.
   */
  lemma ServeIsSteps(v: Server, s: State, a: Attempt, c: Circumstances)
    requires Storage.Valid(v.storage, s.sink)
    requires |s.admitted| !in s.inflight
    ensures var t := Steps(v, s, a, c);
            var (tables, sink, reply) := Serve(v, s.tables, s.sink, a, c);
            && Settled(s, t, tables, sink, s.inflight)
            && (reply.Decided? && reply.decision == Accept ==> t.storedBy == s.storedBy + [|s.admitted|])
            && (t.storedBy != s.storedBy ==>
                  (reply.Decided? && reply.decision == Accept)
                  || (reply == StorageFailed && Storage.SyncOp in c.faults && v.storage.sync))
  {
    var k := |s.admitted|;
    var s1 := AdmitAlone(v, s, a, c);
    var s2 := BindAlone(v, s1, k);
    var s3 := SanitizeAlone(v, s2, k, c);
    if Verdict(v.crypto, v.policy, v.registry, s.tables, a, c.guardFault).1.Some? {
      Idle(v, s1, k, c);
    } else {
      BindSettles(v, s1, s.inflight, k, c);
      if Payload(v, a.envelope).None? {
        Idle(v, s2, k, c);
      } else {
        FinishSettles(v, s2, s.inflight, k, Payload(v, a.envelope).value, c);
      }
    }
  }

  /** Sanitizing and writing a bound frame. */
  lemma FinishSettles(v: Server, s: State, others: map<nat, Phase>, k: nat, f: RawFrame, c: Circumstances)
    requires Storage.Valid(v.storage, s.sink) && k !in others && s.inflight == others[k := Bound(f)]
    ensures var t := WriteAlone(v, SanitizeAlone(v, s, k, c), k, c);
            var (sink, reply) := Finish(v, s.sink, f, c);
            && Settled(s, t, s.tables, sink, others)
            && (reply.Decided? && reply.decision == Accept ==> t.storedBy == s.storedBy + [k])
            && (t.storedBy != s.storedBy ==>
                  (reply.Decided? && reply.decision == Accept)
                  || (reply == StorageFailed && Storage.SyncOp in c.faults && v.storage.sync))
  {
    var r := ProcessFrame(v.settings, f, c.sanitizedAt);
    var t := SanitizeAlone(v, s, k, c);
    SanitizeSettles(v, s, others, k, f, c);
    PassesExactly(v.settings, f, c.sanitizedAt);
    if !r.failed && r.decision == Accept && r.frame.Some? {
      WriteSettles(v, t, others, k, r.frame.value, c);
    } else {
      Idle(v, t, k, c);
    }
  }

  /** A line lands when the write succeeds, and otherwise only when the fsync was what failed. */
  lemma LandedWhen(cfg: Storage.Config, s: Storage.Sink, req: Storage.Request)
    requires Storage.Valid(cfg, s)
    ensures var o := Storage.Write(cfg, s, req);
            && (o.error.None? ==> LandedRecord(req, o.error) != [])
            && (LandedRecord(req, o.error) != [] && o.error.Some? ==>
                  Storage.SyncOp in req.faults && cfg.sync)
  {
    if Storage.Refusal(req).None? {
      EnsureWriterError(cfg, s, req.now, |Storage.Line(req)|, req.faults);
      Storage.EnsureWriterOpens(cfg, s, req.now, |Storage.Line(req)|, req.faults);
    }
  }

  // ----- when a request is accepted -----

  /** The frame leaves the sanitizer: its package is allowed and no recognizer fails on it. */
  ghost predicate Passes(s: Settings, f: RawFrame) {
    Allowed(s, f) && s.vision(f.screenshotRef).Some? && forall p, x :: !Paths.FailsAt(s.oracle, f.uiRoot, p, x)
  }

  /** The sink takes the line: a writer is ready and neither the write nor its fsync fails. */
  predicate Takes(v: Server, sink: Storage.Sink, line: string, c: Circumstances) {
    && Storage.EnsureWriter(v.storage, sink, c.writtenAt, |line| + 1, c.faults).error.None?
    && Storage.WriteOp !in c.faults
    && !(v.storage.sync && Storage.SyncOp in c.faults)
  }

  /** All that a bound frame needs to be stored. */
  ghost predicate Storing(v: Server, sink: Storage.Sink, f: RawFrame, c: Circumstances) {
    && Passes(v.settings, f)
    && !c.canceled && v.settings.version != "" && !IsZero(c.sanitizedAt)
    && var r := ProcessFrame(v.settings, f, c.sanitizedAt);
       r.frame.Some? && v.encode(r.frame.value).Some? && Takes(v, sink, v.encode(r.frame.value).value, c)
  }

  predicate Accepted(reply: Reply) {
    reply.Decided? && reply.decision == Accept
  }

  lemma VerifiedExactly(v: Server, tables: Sqlite.Tables, a: Attempt, fault: Sqlite.Fault)
    ensures Verdict(v.crypto, v.policy, v.registry, tables, a, fault).1.None? <==>
              fault == Sqlite.NoFault && Admissible(v, tables, a)
  {
    VerdictExactly(v.crypto, v.policy, v.registry, tables, a);
    Sqlite.FailureLeavesTables(tables, CallOf(a.envelope), fault);
  }

  lemma WriteTakes(v: Server, sink: Storage.Sink, g: SanitizedFrame, c: Circumstances)
    requires Storage.Valid(v.storage, sink)
    ensures var req := WriteRequest(v, g, c.canceled, c.writtenAt, c.faults);
            Storage.Write(v.storage, sink, req).error.None? <==>
              !c.canceled && Storage.Safe(g) && v.encode(g).Some? && Takes(v, sink, v.encode(g).value, c)
  {
    if v.encode(g).Some? {
      Storage.EnsureWriterOpens(v.storage, sink, c.writtenAt, |v.encode(g).value| + 1, c.faults);
    }
  }

  lemma PassesExactly(s: Settings, f: RawFrame, now: Time)
    ensures var r := ProcessFrame(s, f, now);
            && (r.decision == Accept <==> Passes(s, f))
            && (r.frame.Some? <==> r.decision == Accept)
            && (r.failed ==> r.decision == Drop)
            && (r.frame.Some? ==> (Storage.Safe(r.frame.value) <==> s.version != "" && !IsZero(now)))
  {
    AcceptExactly(s, f, now);
  }

  lemma FinishAcceptsExactly(v: Server, sink: Storage.Sink, f: RawFrame, c: Circumstances)
    requires Storage.Valid(v.storage, sink)
    ensures Accepted(Finish(v, sink, f, c).1) <==> Storing(v, sink, f, c)
  {
    PassesExactly(v.settings, f, c.sanitizedAt);
    var r := ProcessFrame(v.settings, f, c.sanitizedAt);
    if r.frame.Some? {
      WriteTakes(v, sink, r.frame.value, c);
    }
  }

  /**
   A request is answered with accept exactly when the envelope is authentic, new to the guard
   and recorded without a failure, its payload decodes and binds, the frame passes the
   sanitizer, and the sink takes its line.
   */
  lemma ServeAcceptsExactly(v: Server, tables: Sqlite.Tables, sink: Storage.Sink, a: Attempt, c: Circumstances)
    requires Storage.Valid(v.storage, sink)
    ensures Accepted(Serve(v, tables, sink, a, c).2) <==>
              && c.guardFault == Sqlite.NoFault && Admissible(v, tables, a)
              && Payload(v, a.envelope).Some? && Storing(v, sink, Payload(v, a.envelope).value, c)
  {
    VerifiedExactly(v, tables, a, c.guardFault);
    if Payload(v, a.envelope).Some? {
      FinishAcceptsExactly(v, sink, Payload(v, a.envelope).value, c);
    }
  }

  /** When no call of the operating system fails, only a rotation without a name stands in the way. */
  lemma TakesWithoutFaults(v: Server, sink: Storage.Sink, line: string, c: Circumstances)
    requires Storage.Valid(v.storage, sink) && c.faults == {}
    ensures Takes(v, sink, line, c) <==> CanRotate(v.storage, sink, c.writtenAt, |line| + 1)
  {
    EnsureWriterSucceeds(v.storage, sink, c.writtenAt, |line| + 1);
  }

  // ----- the reply to every request -----

  /** The reply when the sanitizer lets nothing through, and why. */
  ghost predicate Declines(s: Settings, f: RawFrame, reply: Reply) {
    var pkg := TrimSpace(f.foregroundApp.packageName);
    && (pkg == "" ==> reply == Decided(Drop, ["missing_foreground_package"], s.version))
    && (pkg != "" && pkg in s.sensitivePackages ==>
          reply == Decided(Quarantine, ["sensitive_package"], s.version))
    && (pkg != "" && pkg !in s.sensitivePackages && pkg !in s.allowedPackages ==>
          reply == Decided(Drop, ["package_not_allowlisted"], s.version))
    && (Allowed(s, f) ==> reply == Decided(Drop, ["sanitizer_error"], s.version))
  }

  lemma FailedExactly(s: Settings, f: RawFrame, now: Time)
    ensures ProcessFrame(s, f, now).failed <==> Allowed(s, f) && !Passes(s, f)
    ensures ProcessFrame(s, f, now).sanitizerVersion == s.version
  {
    Paths.FailsSomewhere(s.oracle, f.uiRoot);
  }

  lemma DeclinesExactly(v: Server, sink: Storage.Sink, f: RawFrame, c: Circumstances)
    requires Storage.Valid(v.storage, sink) && !Passes(v.settings, f)
    ensures Finish(v, sink, f, c).0 == sink && Declines(v.settings, f, Finish(v, sink, f, c).1)
  {
    FailedExactly(v.settings, f, c.sanitizedAt);
    PassesExactly(v.settings, f, c.sanitizedAt);
    Decisions.PackageRefused(v.settings, f, c.sanitizedAt);
  }

  /** A frame that passes is written; the reply repeats what the frame's report says. */
  lemma WritesExactly(v: Server, sink: Storage.Sink, f: RawFrame, c: Circumstances)
    requires Storage.Valid(v.storage, sink) && Passes(v.settings, f)
    ensures var r := ProcessFrame(v.settings, f, c.sanitizedAt);
            && r.frame.Some?
            && var g := r.frame.value;
               var o := Storage.Write(v.storage, sink, WriteRequest(v, g, c.canceled, c.writtenAt, c.faults));
               Finish(v, sink, f, c) ==
                 (o.sink, if o.error.Some? then StorageFailed
                          else Decided(Accept, g.sanitizer.reasonCodes, v.settings.version))
  {
    PassesExactly(v.settings, f, c.sanitizedAt);
    FailedExactly(v.settings, f, c.sanitizedAt);
    Decisions.AcceptedLists(v.settings, f, c.sanitizedAt);
  }

  /** Each reply of the service, by the first thing that stands in the way; the store changes only by the write. */
  lemma RepliesExactly(v: Server, tables: Sqlite.Tables, sink: Storage.Sink, a: Attempt, c: Circumstances)
    requires Storage.Valid(v.storage, sink)
    ensures var (tables', sink', reply) := Serve(v, tables, sink, a, c);
            var (recorded, err) := Verdict(v.crypto, v.policy, v.registry, tables, a, c.guardFault);
            var decoded := v.decode(a.envelope.payload);
            var bound := Payload(v, a.envelope);
            && tables' == recorded
            && (err.Some? ==> reply == AuthRejected(err.value) && sink' == sink)
            && (err.None? && decoded.None? ==> reply == PayloadMalformed && sink' == sink)
            && (err.None? && decoded.Some? && bound.None? ==> reply == IdentitiesDiffer && sink' == sink)
            && (err.None? && bound.Some? && !Passes(v.settings, bound.value) ==>
                  Declines(v.settings, bound.value, reply) && sink' == sink)
            && (err.None? && bound.Some? && Passes(v.settings, bound.value) ==>
                  (sink', reply) == Finish(v, sink, bound.value, c))
  {
    if Payload(v, a.envelope).Some? && !Passes(v.settings, Payload(v, a.envelope).value) {
      DeclinesExactly(v, sink, Payload(v, a.envelope).value, c);
    }
  }
}
