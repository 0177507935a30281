/**
 The ingest path of server/internal/ingest/service.go as a state machine.  Requests run
 concurrently; verification with the guard and the storage write are atomic because each
 holds a mutex, everything between them is private to the request, and the process may
 crash at any point, keeping the tables and the files.
 */
module Ingest {
  import opened Text
  import opened Clock
  import opened Trajectory
  import opened Signing
  import opened Replay
  import opened Verifier
  import opened SanitizePipeline
  import Sqlite = SqliteGuard
  import Storage
  import opened StorageConservation

  /** Everything that does not change while the server runs. */
  datatype Server = Server(
    crypto: Crypto, policy: Policy, registry: Registry, settings: Settings,
    decode: string -> Option<RawFrame>, encode: SanitizedFrame -> Option<string>,
    storage: Storage.Config)

  // ----- binding the payload to the envelope -----

  function OrElse(s: string, default: string): string {
    if s == "" then default else s
  }

  function Filled(e: SignedEnvelope, f: RawFrame): RawFrame {
    f.(protocolVersion := OrElse(f.protocolVersion, e.protocolVersion),
       trajectoryId := OrElse(f.trajectoryId, e.trajectoryId),
       frameId := OrElse(f.frameId, e.frameId),
       device := f.device.(deviceId := OrElse(f.device.deviceId, e.deviceId)))
  }

  /** The five identity fields of a frame are the envelope's. */
  predicate SameIdentity(e: SignedEnvelope, f: RawFrame) {
    && f.protocolVersion == e.protocolVersion && f.trajectoryId == e.trajectoryId
    && f.frameId == e.frameId && f.sequence == e.sequence && f.device.deviceId == e.deviceId
  }

  /** bindEnvelopeToFrame, followed by the signature metadata. */
  function Bind(e: SignedEnvelope, f: RawFrame): Option<RawFrame> {
    var g := Filled(e, f);
    if SameIdentity(e, g) then
      Some(g.(signature := SignatureMetadata(e.signatureAlg, e.publicKeyId, e.payloadSha256Hex, "verified")))
    else None
  }

  /** The frame a verified envelope stands for. */
  function Payload(v: Server, e: SignedEnvelope): Option<RawFrame> {
    match v.decode(e.payload)
    case None => None
    case Some(f) => Bind(e, f)
  }

  /** The attempt would be verified by these tables, without a failure. */
  ghost predicate Admissible(v: Server, t: Sqlite.Tables, a: Attempt) {
    && Authentic(v.crypto, v.policy, v.registry, a)
    && Sqlite.IsNew(t, CallOf(a.envelope)) && a.envelope.sequence <= Sqlite.MAX_INTEGER
  }

  // ----- the machine -----

  datatype Phase = Admitted | Bound(raw: RawFrame) | Ready(frame: SanitizedFrame)

  /**
   `admitted`, `storedBy` and `failed` are history: the verified attempts in order, the
   attempt behind each stored line, and the attempts that came to nothing.
   */
  datatype State = State(
    tables: Sqlite.Tables, sink: Storage.Sink, inflight: map<nat, Phase>,
    admitted: seq<Attempt>, storedBy: seq<nat>, failed: set<nat>)

  datatype Step =
    | Admit(attempt: Attempt, fault: Sqlite.Fault)
    | BindStep(k: nat)
    | SanitizeStep(k: nat, at: Time)
    | WriteStep(k: nat, canceled: bool, now: Time, faults: set<Storage.Op>)
    | CloseSink
    | Crash

  function Fail(s: State, k: nat): State {
    s.(inflight := s.inflight - {k}, failed := s.failed + {k})
  }

  function DoAdmit(v: Server, s: State, a: Attempt, fault: Sqlite.Fault): State {
    var (tables, err) := Verdict(v.crypto, v.policy, v.registry, s.tables, a, fault);
    if err.Some? then s.(tables := tables)
    else
      s.(tables := tables, admitted := s.admitted + [a], inflight := s.inflight[|s.admitted| := Admitted])
  }

  function DoBind(v: Server, s: State, k: nat): State
    requires k in s.inflight && k < |s.admitted|
  {
    match Payload(v, s.admitted[k].envelope)
    case None => Fail(s, k)
    case Some(f) => s.(inflight := s.inflight[k := Bound(f)])
  }

  ghost function DoSanitize(v: Server, s: State, k: nat, at: Time): State
    requires k in s.inflight && s.inflight[k].Bound?
  {
    var r := ProcessFrame(v.settings, s.inflight[k].raw, at);
    if r.failed || r.decision != Accept || r.frame.None? then Fail(s, k)
    else s.(inflight := s.inflight[k := Ready(r.frame.value)])
  }

  function WriteRequest(v: Server, f: SanitizedFrame, canceled: bool, now: Time, faults: set<Storage.Op>)
    : Storage.Request
  {
    Storage.Request(f, v.encode(f), canceled, now, faults)
  }

  function DoWrite(v: Server, s: State, k: nat, canceled: bool, now: Time, faults: set<Storage.Op>): State
    requires k in s.inflight && s.inflight[k].Ready? && Storage.Valid(v.storage, s.sink)
  {
    var req := WriteRequest(v, s.inflight[k].frame, canceled, now, faults);
    var o := Storage.Write(v.storage, s.sink, req);
    var s' := s.(sink := o.sink, inflight := s.inflight - {k});
    if LandedRecord(req, o.error) != [] then s'.(storedBy := s.storedBy + [k])
    else s'.(failed := s.failed + {k})
  }

  /** A step that is not enabled changes nothing. */
  ghost function Next(v: Server, s: State, step: Step): State
    requires Storage.Valid(v.storage, s.sink)
  {
    match step
    case Admit(a, fault) => DoAdmit(v, s, a, fault)
    case BindStep(k) =>
      if k in s.inflight && k < |s.admitted| && s.inflight[k].Admitted? then DoBind(v, s, k) else s
    case SanitizeStep(k, at) =>
      if k in s.inflight && s.inflight[k].Bound? then DoSanitize(v, s, k, at) else s
    case WriteStep(k, canceled, now, faults) =>
      if k in s.inflight && s.inflight[k].Ready? then DoWrite(v, s, k, canceled, now, faults) else s
    case CloseSink => s.(sink := Storage.Closed(s.sink))
    case Crash =>
      s.(sink := Storage.Closed(s.sink), inflight := map[], failed := s.failed + s.inflight.Keys)
  }

  // ----- the invariant, part by part -----

  /** Each of the n admitted attempts is in exactly one place. */
  predicate Fates(n: nat, inflight: map<nat, Phase>, storedBy: seq<nat>, failed: set<nat>) {
    && Distinct(storedBy)
    && (forall k :: k in storedBy ==> k < n && k !in inflight && k !in failed)
    && (forall k :: k in failed ==> k < n && k !in inflight)
    && (forall k :: k in inflight ==> k < n)
    && (forall k: nat :: k < n ==> k in inflight || k in failed || k in storedBy)
  }

  /** The sanitizer's accepted output on the frame that this envelope stands for. */
  ghost predicate Genuine(v: Server, e: SignedEnvelope, g: SanitizedFrame) {
    && Payload(v, e).Some?
    && var r := ProcessFrame(v.settings, Payload(v, e).value, g.sanitizedAt);
       r.decision == Accept && r.frame == Some(g)
  }

  ghost predicate PhaseOk(v: Server, e: SignedEnvelope, p: Phase) {
    match p
    case Admitted => true
    case Bound(f) => Payload(v, e) == Some(f)
    case Ready(g) => Genuine(v, e, g)
  }

  ghost predicate Phases(v: Server, admitted: seq<Attempt>, inflight: map<nat, Phase>) {
    forall k :: k in inflight ==> k < |admitted| && PhaseOk(v, admitted[k].envelope, inflight[k])
  }

  /** The guard remembers this attempt: its frame id, and a sequence at least as high. */
  predicate Remembered(t: Sqlite.Tables, a: Attempt) {
    Sqlite.Known(t, CallOf(a.envelope)) && Sqlite.SequenceKept(t, CallOf(a.envelope))
  }

  /** A later call of the same device has another frame id and a higher sequence. */
  predicate Follows(e: SignedEnvelope, f: SignedEnvelope) {
    e.deviceId == f.deviceId ==> e.frameId != f.frameId && e.sequence < f.sequence
  }

  /** Admitted attempts are authentic, recorded in the tables, and of pairwise different calls. */
  ghost predicate Admissions(v: Server, t: Sqlite.Tables, admitted: seq<Attempt>) {
    && (forall k :: 0 <= k < |admitted| ==>
          Authentic(v.crypto, v.policy, v.registry, admitted[k]) && Remembered(t, admitted[k]))
    && (forall i, j :: 0 <= i < j < |admitted| ==> Follows(admitted[i].envelope, admitted[j].envelope))
  }

  /** The stored line is the encoding of its frame. */
  predicate Encodes(v: Server, rec: Storage.Record) {
    v.encode(rec.frame).Some? && rec.line == v.encode(rec.frame).value + "\n"
  }

  /** The store is what was there at the start and then one genuine line per entry of storedBy. */
  ghost predicate StoreOk(v: Server, base: seq<Storage.Record>, sink: Storage.Sink,
                          admitted: seq<Attempt>, storedBy: seq<nat>)
  {
    && Storage.Valid(v.storage, sink) && Tracked(v.storage, sink)
    && var all := AllRecords(v.storage, sink);
       && |all| == |base| + |storedBy|
       && all[..|base|] == base
       && forall i :: 0 <= i < |storedBy| ==>
            && storedBy[i] < |admitted| && Genuine(v, admitted[storedBy[i]].envelope, all[|base| + i].frame)
            && Encodes(v, all[|base| + i])
  }

  ghost predicate Inv(v: Server, base: seq<Storage.Record>, s: State) {
    && Fates(|s.admitted|, s.inflight, s.storedBy, s.failed)
    && Phases(v, s.admitted, s.inflight)
    && Admissions(v, s.tables, s.admitted)
    && StoreOk(v, base, s.sink, s.admitted, s.storedBy)
  }

  ghost predicate Initial(v: Server, s: State) {
    && s.inflight == map[] && s.admitted == [] && s.storedBy == [] && s.failed == {}
    && Storage.Valid(v.storage, s.sink) && Tracked(v.storage, s.sink)
  }

  // ----- every step keeps the invariant -----

  lemma AllRemembered(t: Sqlite.Tables, admitted: seq<Attempt>, c: Call, fault: Sqlite.Fault)
    requires forall k :: 0 <= k < |admitted| ==> Remembered(t, admitted[k])
    ensures forall k :: 0 <= k < |admitted| ==> Remembered(Sqlite.Step(t, c, fault).0, admitted[k])
    ensures Sqlite.Step(t, c, fault).1 == Accepted ==>
              forall k :: 0 <= k < |admitted| && admitted[k].envelope.deviceId == c.device ==>
                admitted[k].envelope.frameId != c.frame && admitted[k].envelope.sequence < c.sequence
  {
  }

  lemma AdmissionsSnoc(v: Server, t: Sqlite.Tables, t': Sqlite.Tables, admitted: seq<Attempt>, a: Attempt)
    requires Admissions(v, t, admitted) && Authentic(v.crypto, v.policy, v.registry, a)
    requires forall k :: 0 <= k < |admitted| ==> Remembered(t', admitted[k])
    requires forall k :: 0 <= k < |admitted| ==> Follows(admitted[k].envelope, a.envelope)
    requires Remembered(t', a)
    ensures Admissions(v, t', admitted + [a])
  {
    var all := admitted + [a];
    forall i, j | 0 <= i < j < |all| ensures Follows(all[i].envelope, all[j].envelope) {
      if j < |admitted| {
        assert all[i] == admitted[i] && all[j] == admitted[j];
      }
    }
  }

  lemma AdmitAdmissions(v: Server, s: State, a: Attempt, fault: Sqlite.Fault)
    requires Admissions(v, s.tables, s.admitted)
    ensures Admissions(v, DoAdmit(v, s, a, fault).tables, DoAdmit(v, s, a, fault).admitted)
  {
    var c := CallOf(a.envelope);
    var (t', answer) := Sqlite.Step(s.tables, c, fault);
    AllRemembered(s.tables, s.admitted, c, fault);
    if Check(v.crypto, v.policy, v.registry, a).None? && answer == Accepted {
      CheckIsAuthentic(v.crypto, v.policy, v.registry, a);
      Sqlite.FailureLeavesTables(s.tables, c, fault);
      AdmissionsSnoc(v, s.tables, t', s.admitted, a);
    }
  }

  lemma AdmitKeeps(v: Server, base: seq<Storage.Record>, s: State, a: Attempt, fault: Sqlite.Fault)
    requires Inv(v, base, s)
    ensures Inv(v, base, DoAdmit(v, s, a, fault))
  {
    AdmitAdmissions(v, s, a, fault);
    AdmitFates(|s.admitted|, s.inflight, s.storedBy, s.failed);
    AdmitPhases(v, s.admitted, s.inflight, a);
    AdmitStore(v, base, s.sink, s.admitted, s.storedBy, a);
  }

  lemma AdmitFates(n: nat, inflight: map<nat, Phase>, storedBy: seq<nat>, failed: set<nat>)
    requires Fates(n, inflight, storedBy, failed)
    ensures Fates(n + 1, inflight[n := Admitted], storedBy, failed)
  {
  }

  lemma AdmitPhases(v: Server, admitted: seq<Attempt>, inflight: map<nat, Phase>, a: Attempt)
    requires Phases(v, admitted, inflight)
    ensures Phases(v, admitted + [a], inflight[|admitted| := Admitted])
  {
  }

  lemma AdmitStore(v: Server, base: seq<Storage.Record>, sink: Storage.Sink,
                   admitted: seq<Attempt>, storedBy: seq<nat>, a: Attempt)
    requires StoreOk(v, base, sink, admitted, storedBy)
    ensures StoreOk(v, base, sink, admitted + [a], storedBy)
  {
  }

  lemma DropFates(n: nat, inflight: map<nat, Phase>, storedBy: seq<nat>, failed: set<nat>, gone: set<nat>)
    requires Fates(n, inflight, storedBy, failed) && gone <= inflight.Keys
    ensures Fates(n, inflight - gone, storedBy, failed + gone)
  {
  }

  lemma DropPhases(v: Server, admitted: seq<Attempt>, inflight: map<nat, Phase>, gone: set<nat>)
    requires Phases(v, admitted, inflight)
    ensures Phases(v, admitted, inflight - gone)
  {
  }

  /** Requests in flight that come to nothing. */
  lemma DropKeeps(v: Server, base: seq<Storage.Record>, s: State, t: State, gone: set<nat>)
    requires Inv(v, base, s) && gone <= s.inflight.Keys
    requires t.inflight == s.inflight - gone && t.failed == s.failed + gone
    requires t.tables == s.tables && t.sink == s.sink && t.admitted == s.admitted && t.storedBy == s.storedBy
    ensures Inv(v, base, t)
  {
    DropFates(|s.admitted|, s.inflight, s.storedBy, s.failed, gone);
    DropPhases(v, s.admitted, s.inflight, gone);
  }

  lemma FailKeeps(v: Server, base: seq<Storage.Record>, s: State, k: nat)
    requires Inv(v, base, s) && k in s.inflight
    ensures Inv(v, base, Fail(s, k))
  {
    DropKeeps(v, base, s, Fail(s, k), {k});
  }

  lemma AdvanceKeeps(v: Server, base: seq<Storage.Record>, s: State, k: nat, p: Phase)
    requires Inv(v, base, s) && k in s.inflight && PhaseOk(v, s.admitted[k].envelope, p)
    ensures Inv(v, base, s.(inflight := s.inflight[k := p]))
  {
    AdvanceFates(|s.admitted|, s.inflight, s.storedBy, s.failed, k, p);
    AdvancePhases(v, s.admitted, s.inflight, k, p);
  }

  lemma AdvanceFates(n: nat, inflight: map<nat, Phase>, storedBy: seq<nat>, failed: set<nat>, k: nat, p: Phase)
    requires Fates(n, inflight, storedBy, failed) && k in inflight
    ensures Fates(n, inflight[k := p], storedBy, failed)
  {
  }

  lemma AdvancePhases(v: Server, admitted: seq<Attempt>, inflight: map<nat, Phase>, k: nat, p: Phase)
    requires Phases(v, admitted, inflight) && k in inflight && PhaseOk(v, admitted[k].envelope, p)
    ensures Phases(v, admitted, inflight[k := p])
  {
  }

  lemma BindKeeps(v: Server, base: seq<Storage.Record>, s: State, k: nat)
    requires Inv(v, base, s) && k in s.inflight
    ensures Inv(v, base, DoBind(v, s, k))
  {
    match Payload(v, s.admitted[k].envelope)
    case None => FailKeeps(v, base, s, k);
    case Some(f) => AdvanceKeeps(v, base, s, k, Bound(f));
  }

  lemma SanitizeKeeps(v: Server, base: seq<Storage.Record>, s: State, k: nat, at: Time)
    requires Inv(v, base, s) && k in s.inflight && s.inflight[k].Bound?
    ensures Inv(v, base, DoSanitize(v, s, k, at))
  {
    var r := ProcessFrame(v.settings, s.inflight[k].raw, at);
    if r.failed || r.decision != Accept || r.frame.None? {
      FailKeeps(v, base, s, k);
    } else {
      ProcessStampsTime(v, s.inflight[k].raw, at);
      AdvanceKeeps(v, base, s, k, Ready(r.frame.value));
    }
  }

  lemma ProcessStampsTime(v: Server, f: RawFrame, at: Time)
    ensures var r := ProcessFrame(v.settings, f, at);
            r.frame.Some? ==> r.frame.value.sanitizedAt == at
  {
  }

  lemma LandFates(n: nat, inflight: map<nat, Phase>, storedBy: seq<nat>, failed: set<nat>, k: nat)
    requires Fates(n, inflight, storedBy, failed) && k in inflight
    ensures Fates(n, inflight - {k}, storedBy + [k], failed)
  {
  }

  /** A sink that gained one line, of the frame that attempt k was ready to write. */
  lemma LandStore(v: Server, base: seq<Storage.Record>, sink: Storage.Sink, sink': Storage.Sink,
                  admitted: seq<Attempt>, storedBy: seq<nat>, k: nat, rec: Storage.Record)
    requires StoreOk(v, base, sink, admitted, storedBy) && k < |admitted|
    requires Storage.Valid(v.storage, sink') && Tracked(v.storage, sink')
    requires AllRecords(v.storage, sink') == AllRecords(v.storage, sink) + [rec]
    requires Genuine(v, admitted[k].envelope, rec.frame) && Encodes(v, rec)
    ensures StoreOk(v, base, sink', admitted, storedBy + [k])
  {
    var was, all := AllRecords(v.storage, sink), AllRecords(v.storage, sink');
    assert all[..|base|] == was[..|base|];
    var stored := storedBy + [k];
    forall i | 0 <= i < |stored|
      ensures stored[i] < |admitted| && Genuine(v, admitted[stored[i]].envelope, all[|base| + i].frame)
      ensures Encodes(v, all[|base| + i])
    {
      if i < |storedBy| {
        assert stored[i] == storedBy[i] && all[|base| + i] == was[|base| + i];
      } else {
        assert all[|base| + i] == rec;
      }
    }
  }

  lemma SameStoreOk(v: Server, base: seq<Storage.Record>, sink: Storage.Sink, sink': Storage.Sink,
                    admitted: seq<Attempt>, storedBy: seq<nat>)
    requires StoreOk(v, base, sink, admitted, storedBy)
    requires Storage.Valid(v.storage, sink') && Tracked(v.storage, sink')
    requires AllRecords(v.storage, sink') == AllRecords(v.storage, sink)
    ensures StoreOk(v, base, sink', admitted, storedBy)
  {
  }

  lemma WriteSink(v: Server, sink: Storage.Sink, req: Storage.Request)
    requires Storage.Valid(v.storage, sink) && Tracked(v.storage, sink)
    ensures var o := Storage.Write(v.storage, sink, req);
            && Storage.Valid(v.storage, o.sink) && Tracked(v.storage, o.sink)
            && AllRecords(v.storage, o.sink) == AllRecords(v.storage, sink) + LandedRecord(req, o.error)
  {
    WriteConserves(v.storage, sink, req);
    var e := Storage.WriteEvent(req);
    assert Storage.Next(v.storage, sink, e) == Storage.Write(v.storage, sink, req);
  }

  lemma LandKeeps(v: Server, base: seq<Storage.Record>, s: State, k: nat, sink: Storage.Sink, rec: Storage.Record)
    requires Inv(v, base, s) && k in s.inflight && s.inflight[k] == Ready(rec.frame) && Encodes(v, rec)
    requires Storage.Valid(v.storage, sink) && Tracked(v.storage, sink)
    requires AllRecords(v.storage, sink) == AllRecords(v.storage, s.sink) + [rec]
    ensures Inv(v, base, s.(sink := sink, inflight := s.inflight - {k}, storedBy := s.storedBy + [k]))
  {
    DropPhases(v, s.admitted, s.inflight, {k});
    LandFates(|s.admitted|, s.inflight, s.storedBy, s.failed, k);
    LandStore(v, base, s.sink, sink, s.admitted, s.storedBy, k, rec);
  }

  /** Another sink that reads the same. */
  lemma SinkKeeps(v: Server, base: seq<Storage.Record>, s: State, sink: Storage.Sink)
    requires Inv(v, base, s)
    requires Storage.Valid(v.storage, sink) && Tracked(v.storage, sink)
    requires AllRecords(v.storage, sink) == AllRecords(v.storage, s.sink)
    ensures Inv(v, base, s.(sink := sink))
  {
    SameStoreOk(v, base, s.sink, sink, s.admitted, s.storedBy);
  }

  lemma MissKeeps(v: Server, base: seq<Storage.Record>, s: State, k: nat, sink: Storage.Sink)
    requires Inv(v, base, s) && k in s.inflight
    requires Storage.Valid(v.storage, sink) && Tracked(v.storage, sink)
    requires AllRecords(v.storage, sink) == AllRecords(v.storage, s.sink)
    ensures Inv(v, base, s.(sink := sink, inflight := s.inflight - {k}, failed := s.failed + {k}))
  {
    FailKeeps(v, base, s, k);
    SinkKeeps(v, base, Fail(s, k), sink);
  }

  lemma WriteKeeps(v: Server, base: seq<Storage.Record>, s: State, k: nat,
                   canceled: bool, now: Time, faults: set<Storage.Op>)
    requires Inv(v, base, s) && k in s.inflight && s.inflight[k].Ready?
    ensures Inv(v, base, DoWrite(v, s, k, canceled, now, faults))
  {
    var req := WriteRequest(v, s.inflight[k].frame, canceled, now, faults);
    var o := Storage.Write(v.storage, s.sink, req);
    WriteSink(v, s.sink, req);
    if LandedRecord(req, o.error) != [] {
      LandKeeps(v, base, s, k, o.sink, Storage.RecordOf(req));
    } else {
      MissKeeps(v, base, s, k, o.sink);
    }
  }

  lemma CloseKeeps(v: Server, base: seq<Storage.Record>, s: State)
    requires Inv(v, base, s)
    ensures Inv(v, base, s.(sink := Storage.Closed(s.sink)))
  {
    var closed := Storage.Closed(s.sink);
    SameFilesConserve(v.storage, s.sink, closed);
    SinkKeeps(v, base, s, closed);
  }

  lemma CrashKeeps(v: Server, base: seq<Storage.Record>, s: State)
    requires Inv(v, base, s)
    ensures Inv(v, base, Next(v, s, Crash))
  {
    CloseKeeps(v, base, s);
    ForgetKeeps(v, base, s.(sink := Storage.Closed(s.sink)));
  }

  /** All requests in flight are lost. */
  lemma ForgetKeeps(v: Server, base: seq<Storage.Record>, s: State)
    requires Inv(v, base, s)
    ensures Inv(v, base, s.(inflight := map[], failed := s.failed + s.inflight.Keys))
  {
    assert s.inflight - s.inflight.Keys == map[];
    DropKeeps(v, base, s, s.(inflight := map[], failed := s.failed + s.inflight.Keys), s.inflight.Keys);
  }

  lemma NextWrites(v: Server, s: State, k: nat, canceled: bool, now: Time, faults: set<Storage.Op>)
    requires Storage.Valid(v.storage, s.sink)
    ensures Next(v, s, WriteStep(k, canceled, now, faults)) ==
            if k in s.inflight && s.inflight[k].Ready? then DoWrite(v, s, k, canceled, now, faults) else s
  {
  }

  lemma WriteStepKeeps(v: Server, base: seq<Storage.Record>, s: State, k: nat,
                       canceled: bool, now: Time, faults: set<Storage.Op>)
    requires Inv(v, base, s)
    ensures Inv(v, base, Next(v, s, WriteStep(k, canceled, now, faults)))
  {
    NextWrites(v, s, k, canceled, now, faults);
    if k in s.inflight && s.inflight[k].Ready? {
      WriteKeeps(v, base, s, k, canceled, now, faults);
    }
  }

  lemma AdmitStepKeeps(v: Server, base: seq<Storage.Record>, s: State, a: Attempt, fault: Sqlite.Fault)
    requires Inv(v, base, s)
    ensures Inv(v, base, Next(v, s, Admit(a, fault)))
  {
    AdmitKeeps(v, base, s, a, fault);
  }

  lemma NextBinds(v: Server, s: State, k: nat)
    requires Storage.Valid(v.storage, s.sink)
    ensures Next(v, s, BindStep(k)) ==
            if k in s.inflight && k < |s.admitted| && s.inflight[k].Admitted? then DoBind(v, s, k) else s
  {
  }

  lemma BindStepKeeps(v: Server, base: seq<Storage.Record>, s: State, k: nat)
    requires Inv(v, base, s)
    ensures Inv(v, base, Next(v, s, BindStep(k)))
  {
    NextBinds(v, s, k);
    if k in s.inflight && s.inflight[k].Admitted? {
      BindKeeps(v, base, s, k);
    }
  }

  lemma NextSanitizes(v: Server, s: State, k: nat, at: Time)
    requires Storage.Valid(v.storage, s.sink)
    ensures Next(v, s, SanitizeStep(k, at)) ==
            if k in s.inflight && s.inflight[k].Bound? then DoSanitize(v, s, k, at) else s
  {
  }

  lemma SanitizeStepKeeps(v: Server, base: seq<Storage.Record>, s: State, k: nat, at: Time)
    requires Inv(v, base, s)
    ensures Inv(v, base, Next(v, s, SanitizeStep(k, at)))
  {
    NextSanitizes(v, s, k, at);
    if k in s.inflight && s.inflight[k].Bound? {
      SanitizeKeeps(v, base, s, k, at);
    }
  }

  lemma NextKeeps(v: Server, base: seq<Storage.Record>, s: State, step: Step)
    requires Inv(v, base, s)
    ensures Inv(v, base, Next(v, s, step))
  {
    match step
    case Admit(a, fault) => AdmitStepKeeps(v, base, s, a, fault);
    case BindStep(k) => BindStepKeeps(v, base, s, k);
    case SanitizeStep(k, at) => SanitizeStepKeeps(v, base, s, k, at);
    case WriteStep(k, canceled, now, faults) => WriteStepKeeps(v, base, s, k, canceled, now, faults);
    case CloseSink => CloseKeeps(v, base, s);
    case Crash => CrashKeeps(v, base, s);
  }
}
