/** What holds of the ingest machine over every interleaving, failure and crash. */
module IngestTheorems {
  import opened Text
  import opened Trajectory
  import opened Signing
  import opened Verifier
  import opened SanitizePipeline
  import opened StorageConservation
  import opened Ingest
  import Storage

  // ----- binding -----

  /** Binding succeeds exactly when every identifier is absent or the envelope's, and the
      sequence is the envelope's even when it is 0. */
  lemma BindExactly(e: SignedEnvelope, f: RawFrame)
    ensures Bind(e, f).Some? <==>
              && f.protocolVersion in {"", e.protocolVersion} && f.trajectoryId in {"", e.trajectoryId}
              && f.frameId in {"", e.frameId} && f.device.deviceId in {"", e.deviceId}
              && f.sequence == e.sequence
    ensures Bind(e, f).Some? ==> SameIdentity(e, Bind(e, f).value)
  {
  }

  /** The five identity fields of a stored frame are those of an envelope. */
  predicate Carries(e: SignedEnvelope, g: SanitizedFrame) {
    && g.protocolVersion == e.protocolVersion && g.trajectoryId == e.trajectoryId
    && g.frameId == e.frameId && g.sequence == e.sequence && g.device.deviceId == e.deviceId
  }

  /** Binding fills the four identifiers, vouches for the signature, and leaves the rest as decoded. */
  lemma BindKeepsPayload(e: SignedEnvelope, f: RawFrame)
    requires Bind(e, f).Some?
    ensures var g := Bind(e, f).value;
            && g.signature.signatureAlg == e.signatureAlg && g.signature.keyId == e.publicKeyId
            && g.signature.payloadSha256Hex == e.payloadSha256Hex
            && g.signature.verificationStatus == "verified"
            && g == f.(protocolVersion := e.protocolVersion, trajectoryId := e.trajectoryId, frameId := e.frameId,
                       device := f.device.(deviceId := e.deviceId), signature := g.signature)
  {
    BindExactly(e, f);
  }

  /** The signature metadata of a stored frame is the envelope's. */
  predicate Attests(e: SignedEnvelope, g: SanitizedFrame) {
    && g.signature.signatureAlg == e.signatureAlg && g.signature.keyId == e.publicKeyId
    && g.signature.payloadSha256Hex == e.payloadSha256Hex
    && g.signature.verificationStatus == "verified"
  }

  /** What a stored frame says besides is what the payload said. */
  predicate Repeats(f: RawFrame, g: SanitizedFrame) {
    && g.eventTimestamp == f.eventTimestamp
    && g.device == f.device.(deviceId := g.device.deviceId)
    && g.foregroundApp == f.foregroundApp
    && g.intent == f.intent && g.action == f.action && g.uiSettle == f.uiSettle
    && g.screenshotRef.referenceId == f.screenshotRef.referenceId
    && g.screenshotRef.sha256Hex == f.screenshotRef.sha256Hex
    && g.screenshotRef.mediaType == f.screenshotRef.mediaType
  }

  /** A stored frame against its envelope: identity, signature, and the decoded payload. */
  predicate Represents(v: Server, e: SignedEnvelope, g: SanitizedFrame) {
    && Carries(e, g) && Attests(e, g)
    && v.decode(e.payload).Some? && Repeats(v.decode(e.payload).value, g)
  }

  lemma GenuineRepresents(v: Server, e: SignedEnvelope, g: SanitizedFrame)
    requires Genuine(v, e, g)
    ensures Represents(v, e, g)
  {
    BindKeepsPayload(e, v.decode(e.payload).value);
    AcceptedParts(v.settings, Payload(v, e).value, g.sanitizedAt);
    CopiedRepresents(e, v.decode(e.payload).value, Payload(v, e).value, g);
  }

  lemma CopiedRepresents(e: SignedEnvelope, f: RawFrame, bound: RawFrame, g: SanitizedFrame)
    requires Bind(e, f) == Some(bound) && Copied(bound, g)
    requires exists boxes :: Planned(bound.screenshotRef, boxes, g.screenshotRef)
    ensures Carries(e, g) && Attests(e, g) && Repeats(f, g)
  {
    BindKeepsPayload(e, f);
  }

  // ----- runs -----

  ghost function Execute(v: Server, s: State, steps: seq<Step>): (r: State)
    requires Storage.Valid(v.storage, s.sink)
    ensures Storage.Valid(v.storage, r.sink)
  {
    if steps == [] then s
    else
      var m := Execute(v, s, steps[..|steps| - 1]);
      NextIsValid(v, m, steps[|steps| - 1]);
      Next(v, m, steps[|steps| - 1])
  }

  lemma NextIsValid(v: Server, s: State, step: Step)
    requires Storage.Valid(v.storage, s.sink)
    ensures Storage.Valid(v.storage, Next(v, s, step).sink)
  {
    match step
    case WriteStep(k, canceled, now, faults) =>
      if k in s.inflight && s.inflight[k].Ready? {
        var e := Storage.WriteEvent(WriteRequest(v, s.inflight[k].frame, canceled, now, faults));
        assert Storage.Valid(v.storage, Storage.Next(v.storage, s.sink, e).sink);
      }
    case Admit(a, fault) =>
    case BindStep(k) =>
    case SanitizeStep(k, at) =>
    case CloseSink =>
    case Crash =>
  }

  lemma {:induction false} RunKeeps(v: Server, base: seq<Storage.Record>, s: State, steps: seq<Step>)
    requires Inv(v, base, s)
    ensures Inv(v, base, Execute(v, s, steps))
  {
    if steps != [] {
      RunKeeps(v, base, s, steps[..|steps| - 1]);
      NextKeeps(v, base, Execute(v, s, steps[..|steps| - 1]), steps[|steps| - 1]);
    }
  }

  lemma InitialInv(v: Server, s: State)
    requires Initial(v, s)
    ensures Inv(v, AllRecords(v.storage, s.sink), s)
  {
  }

  /** The lines stored since the start. */
  function NewRecords(v: Server, base: seq<Storage.Record>, s: State): seq<Storage.Record>
    requires Tracked(v.storage, s.sink) && |base| <= |AllRecords(v.storage, s.sink)|
  {
    AllRecords(v.storage, s.sink)[|base|..]
  }

  lemma StoredIsGenuine(v: Server, base: seq<Storage.Record>, s: State, i: nat)
    requires Inv(v, base, s) && i < |s.storedBy|
    ensures var rec := NewRecords(v, base, s)[i];
            var a := s.admitted[s.storedBy[i]];
            && Genuine(v, a.envelope, rec.frame) && Represents(v, a.envelope, rec.frame) && Encodes(v, rec)
            && Authentic(v.crypto, v.policy, v.registry, a) && Remembered(s.tables, a)
  {
    var all := AllRecords(v.storage, s.sink);
    assert NewRecords(v, base, s)[i] == all[|base| + i];
    GenuineRepresents(v, s.admitted[s.storedBy[i]].envelope, all[|base| + i].frame);
  }

  /** Two attempts admitted in one run are different calls. */
  predicate DifferentCalls(f: SanitizedFrame, g: SanitizedFrame) {
    f.device.deviceId == g.device.deviceId ==> f.frameId != g.frameId && f.sequence != g.sequence
  }

  lemma AdmittedDiffer(v: Server, s: State, j: nat, k: nat)
    requires Admissions(v, s.tables, s.admitted)
    requires j < |s.admitted| && k < |s.admitted| && j != k
    requires s.admitted[j].envelope.deviceId == s.admitted[k].envelope.deviceId
    ensures s.admitted[j].envelope.frameId != s.admitted[k].envelope.frameId
    ensures s.admitted[j].envelope.sequence < s.admitted[k].envelope.sequence <==> j < k
  {
    if j < k {
      assert Follows(s.admitted[j].envelope, s.admitted[k].envelope);
    } else {
      assert Follows(s.admitted[k].envelope, s.admitted[j].envelope);
    }
  }

  lemma StoredDiffer(v: Server, base: seq<Storage.Record>, s: State, i: nat, j: nat)
    requires Inv(v, base, s) && i < j < |s.storedBy|
    ensures DifferentCalls(NewRecords(v, base, s)[i].frame, NewRecords(v, base, s)[j].frame)
  {
    var f, g := NewRecords(v, base, s)[i].frame, NewRecords(v, base, s)[j].frame;
    StoredIsGenuine(v, base, s, i);
    StoredIsGenuine(v, base, s, j);
    assert s.storedBy[i] != s.storedBy[j];
    if f.device.deviceId == g.device.deviceId {
      AdmittedDiffer(v, s, s.storedBy[i], s.storedBy[j]);
    }
  }

  /**
   At most once.  From any directory and any tables, over every interleaving of concurrent
   requests, every failure and any number of crashes and restarts: the store reads as its
   initial contents followed by the new lines; each new line is the encoding of the sanitizer's
   accepted output for its own authentic, guard-recorded envelope, carries that envelope's five
   identity fields and signature data, and repeats the rest of its payload; and no two new lines
   share a (device, frame id) or a (device, sequence).
   */
  lemma AtMostOnce(v: Server, s: State, steps: seq<Step>, i: nat, j: nat)
    requires Initial(v, s)
    ensures var t := Execute(v, s, steps);
            var base := AllRecords(v.storage, s.sink);
            && Inv(v, base, t)
            && AllRecords(v.storage, t.sink) == base + NewRecords(v, base, t)
            && |NewRecords(v, base, t)| == |t.storedBy|
            && (i < |t.storedBy| ==>
                  var rec, a := NewRecords(v, base, t)[i], t.admitted[t.storedBy[i]];
                  && Genuine(v, a.envelope, rec.frame) && Represents(v, a.envelope, rec.frame) && Encodes(v, rec)
                  && Authentic(v.crypto, v.policy, v.registry, a) && Remembered(t.tables, a))
            && (i < j < |t.storedBy| ==>
                  DifferentCalls(NewRecords(v, base, t)[i].frame, NewRecords(v, base, t)[j].frame))
  {
    var base := AllRecords(v.storage, s.sink);
    var t := Execute(v, s, steps);
    InitialInv(v, s);
    RunKeeps(v, base, s, steps);
    StateAtMostOnce(v, base, t, i, j);
  }

  lemma StateAtMostOnce(v: Server, base: seq<Storage.Record>, t: State, i: nat, j: nat)
    requires Inv(v, base, t)
    ensures AllRecords(v.storage, t.sink) == base + NewRecords(v, base, t)
    ensures |NewRecords(v, base, t)| == |t.storedBy|
    ensures i < |t.storedBy| ==>
              var rec, a := NewRecords(v, base, t)[i], t.admitted[t.storedBy[i]];
              && Genuine(v, a.envelope, rec.frame) && Represents(v, a.envelope, rec.frame) && Encodes(v, rec)
              && Authentic(v.crypto, v.policy, v.registry, a) && Remembered(t.tables, a)
    ensures i < j < |t.storedBy| ==>
              DifferentCalls(NewRecords(v, base, t)[i].frame, NewRecords(v, base, t)[j].frame)
  {
    if i < |t.storedBy| {
      StoredIsGenuine(v, base, t, i);
    }
    if i < j < |t.storedBy| {
      StoredDiffer(v, base, t, i, j);
    }
  }

  /** Only the write of a ready request adds to the history of stored lines. */
  lemma OnlyWritesStore(v: Server, s: State, step: Step)
    requires Storage.Valid(v.storage, s.sink) && Next(v, s, step).storedBy != s.storedBy
    ensures step.WriteStep? && step.k in s.inflight && s.inflight[step.k].Ready?
    ensures Next(v, s, step).storedBy == s.storedBy + [step.k]
    ensures Next(v, s, step).admitted == s.admitted
  {
  }

  /** A line is only ever written for an attempt the guard had committed before the write. */
  lemma RecordedBeforeWritten(v: Server, base: seq<Storage.Record>, s: State, step: Step)
    requires Inv(v, base, s) && Next(v, s, step).storedBy != s.storedBy
    ensures step.WriteStep? && step.k < |s.admitted|
    ensures Remembered(s.tables, s.admitted[step.k])
    ensures Next(v, s, step).storedBy == s.storedBy + [step.k]
  {
    OnlyWritesStore(v, s, step);
  }

  // ----- a failed request never comes back -----

  lemma FailedStays(v: Server, s: State, step: Step)
    requires Storage.Valid(v.storage, s.sink)
    ensures s.failed <= Next(v, s, step).failed
    ensures s.admitted <= Next(v, s, step).admitted
    ensures s.storedBy <= Next(v, s, step).storedBy
  {
  }

  lemma {:induction false} FailedStaysOverRuns(v: Server, s: State, steps: seq<Step>)
    requires Storage.Valid(v.storage, s.sink)
    ensures s.failed <= Execute(v, s, steps).failed
    ensures s.admitted <= Execute(v, s, steps).admitted
    ensures s.storedBy <= Execute(v, s, steps).storedBy
  {
    if steps != [] {
      FailedStaysOverRuns(v, s, steps[..|steps| - 1]);
      FailedStays(v, Execute(v, s, steps[..|steps| - 1]), steps[|steps| - 1]);
    }
  }

  /**
   Once a request's binding, sanitizing or write has failed, or a crash dropped it, no later
   line ever carries its device and frame id.
   */
  lemma FailedIsNeverStored(v: Server, base: seq<Storage.Record>, s: State, steps: seq<Step>, k: nat, i: nat)
    requires Inv(v, base, s) && k in s.failed
    requires i < |Execute(v, s, steps).storedBy|
    ensures var t := Execute(v, s, steps);
            && Inv(v, base, t)
            && var g := NewRecords(v, base, t)[i].frame;
               var e := s.admitted[k].envelope;
               g.device.deviceId == e.deviceId ==> g.frameId != e.frameId && g.sequence != e.sequence
  {
    var t := Execute(v, s, steps);
    RunKeeps(v, base, s, steps);
    FailedStaysOverRuns(v, s, steps);
    StoredIsGenuine(v, base, t, i);
    assert k in t.failed && t.storedBy[i] in t.storedBy;
    assert t.admitted[k] == s.admitted[k];
    if t.admitted[t.storedBy[i]].envelope.deviceId == t.admitted[k].envelope.deviceId {
      AdmittedDiffer(v, t, t.storedBy[i], k);
    }
  }
}
