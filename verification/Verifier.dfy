/** The envelope checks of server/internal/auth/auth.go, ending in the replay guard. */
module Verifier {
  import opened Text
  import opened Clock
  import opened Signing
  import opened Replay
  import Memory = MemoryGuard
  import Sqlite = SqliteGuard

  const CLOCK_SKEW := 30 * 1_000_000_000
  const DEFAULT_TTL := 5 * 60 * 1_000_000_000

  datatype Device = Device(
    deviceId: string, publicKey: string, publicKeyId: string, clientCertFingerprintSha256: string)

  type Registry = map<string, Device>

  datatype AuthError =
    | MalformedEnvelope | MissingSignature | InvalidSignature | OversizedPayload
    | FuturePayload | ExpiredPayload | Unauthorized | CertMismatch
    | GuardRejected(answer: Answer)

  datatype Policy = Policy(maxPayloadBytes: int, ttl: int)

  /** One call of Verify: the envelope, the peer's fingerprint, and the two clock readings. */
  datatype Attempt = Attempt(envelope: SignedEnvelope, peer: string, now1: Time, now2: Time)

  // ----- the registry -----

  predicate WellFormedDevice(d: Device) {
    d.deviceId != "" && |d.publicKey| == PUBLIC_KEY_SIZE
  }

  /** r knows exactly the listed ids; of several entries for one id the last one counts. */
  predicate RegistryOf(r: Registry, devices: seq<Device>) {
    && (forall d :: d in devices ==> d.deviceId in r)
    && (forall id :: id in r ==>
          exists i :: 0 <= i < |devices| && devices[i].deviceId == id && r[id] == devices[i]
                      && forall j :: i < j < |devices| ==> devices[j].deviceId != id)
  }

  predicate AllWellFormed(devices: seq<Device>) {
    forall d :: d in devices ==> WellFormedDevice(d)
  }

  method NewStaticDeviceRegistry(devices: seq<Device>) returns (r: Result<Registry, AuthError>)
    ensures r.Ok? <==> AllWellFormed(devices)
    ensures r.Ok? ==> RegistryOf(r.value, devices)
  {
    var registry: Registry := map[];
    for k := 0 to |devices|
      invariant AllWellFormed(devices[..k])
      invariant RegistryOf(registry, devices[..k])
    {
      var device := devices[k];
      assert device in devices;
      if device.deviceId == "" {
        return Err(MalformedEnvelope);
      }
      if |device.publicKey| != PUBLIC_KEY_SIZE {
        return Err(MalformedEnvelope);
      }
      RegistrySnoc(registry, devices[..k], device);
      registry := registry[device.deviceId := device];
      assert devices[..k + 1] == devices[..k] + [device];
    }
    assert devices[..|devices|] == devices;
    return Ok(registry);
  }

  lemma RegistrySnoc(r: Registry, devices: seq<Device>, d: Device)
    requires RegistryOf(r, devices)
    ensures RegistryOf(r[d.deviceId := d], devices + [d])
  {
    var r', all := r[d.deviceId := d], devices + [d];
    forall id | id in r'
      ensures exists i :: 0 <= i < |all| && all[i].deviceId == id && r'[id] == all[i]
                          && forall j :: i < j < |all| ==> all[j].deviceId != id
    {
      if id == d.deviceId {
        assert all[|devices|] == d;
      } else {
        var i :| 0 <= i < |devices| && devices[i].deviceId == id && r[id] == devices[i]
                 && forall j :: i < j < |devices| ==> devices[j].deviceId != id;
        assert all[i] == devices[i];
      }
    }
  }

  // ----- the checks, in the order the code makes them -----

  function BindClientCert(d: Device, e: SignedEnvelope, peer: string): Option<AuthError> {
    var wantRegistry := d.clientCertFingerprintSha256;
    var wantEnvelope := e.clientCertFingerprintSha256;
    if wantRegistry == "" && wantEnvelope == "" then None
    else if peer == "" then Some(CertMismatch)
    else if wantRegistry != "" && wantRegistry != peer then Some(CertMismatch)
    else if wantEnvelope != "" && wantEnvelope != peer then Some(CertMismatch)
    else if wantRegistry != "" && wantEnvelope != "" && wantRegistry != wantEnvelope then Some(CertMismatch)
    else None
  }

  function CheckDevice(c: Crypto, d: Device, a: Attempt): Option<AuthError> {
    var e := a.envelope;
    if (d.publicKeyId != "" || e.publicKeyId != "")
       && (d.publicKeyId == "" || e.publicKeyId == "" || d.publicKeyId != e.publicKeyId) then
      Some(Unauthorized)
    else
      var bound := BindClientCert(d, e, a.peer);
      if bound.Some? then bound
      else
        match CanonicalBytes(e)
        case Err(_) => Some(MalformedEnvelope)
        case Ok(b) => if c.verify(d.publicKey, b, e.detachedSignature) then None else Some(InvalidSignature)
  }

  function EffectiveTtl(ttl: int): int {
    if ttl <= 0 then DEFAULT_TTL else ttl
  }

  function CheckTime(p: Policy, a: Attempt): Option<AuthError> {
    var signedAt := a.envelope.signedAt;
    if IsZero(signedAt) then Some(MalformedEnvelope)
    else if Nanos(signedAt) > Nanos(a.now1) + CLOCK_SKEW then Some(FuturePayload)
    else if Sub(a.now2, signedAt) > EffectiveTtl(p.ttl) then Some(ExpiredPayload)
    else None
  }

  function CheckShape(p: Policy, e: SignedEnvelope): Option<AuthError> {
    if e.protocolVersion == "" || e.deviceId == "" || e.trajectoryId == "" || e.frameId == "" then
      Some(MalformedEnvelope)
    else if e.signatureAlg != SIGNATURE_ALG then Some(MalformedEnvelope)
    else if |e.detachedSignature| == 0 then Some(MissingSignature)
    else if |e.detachedSignature| != SIGNATURE_SIZE then Some(InvalidSignature)
    else if |e.payload| == 0 then Some(MalformedEnvelope)
    else if p.maxPayloadBytes > 0 && |e.payload| > p.maxPayloadBytes then Some(OversizedPayload)
    else None
  }

  /** Everything Verify does before it asks the guard. */
  function Check(c: Crypto, p: Policy, r: Registry, a: Attempt): Option<AuthError> {
    var e := a.envelope;
    var shape := CheckShape(p, e);
    if shape.Some? then shape
    else
      var time := CheckTime(p, a);
      if time.Some? then time
      else if e.payloadSha256Hex == "" || e.payloadSha256Hex != c.sha256Hex(e.payload) then
        Some(MalformedEnvelope)
      else if e.deviceId !in r then Some(Unauthorized)
      else CheckDevice(c, r[e.deviceId], a)
  }

  // ----- what acceptance means -----

  /** A fingerprint declared by the registry or the envelope is the peer's. */
  predicate CertBound(d: Device, e: SignedEnvelope, peer: string) {
    && d.clientCertFingerprintSha256 in {"", peer}
    && e.clientCertFingerprintSha256 in {"", peer}
  }

  predicate InWindow(p: Policy, a: Attempt) {
    && !IsZero(a.envelope.signedAt)
    && Nanos(a.envelope.signedAt) <= Nanos(a.now1) + CLOCK_SKEW
    && Sub(a.now2, a.envelope.signedAt) <= EffectiveTtl(p.ttl)
  }

  predicate FitsPolicy(p: Policy, e: SignedEnvelope) {
    e.payload != "" && (p.maxPayloadBytes > 0 ==> |e.payload| <= p.maxPayloadBytes)
  }

  /** A complete, timely envelope from a registered device, signed over its canonical bytes. */
  ghost predicate Authentic(c: Crypto, p: Policy, r: Registry, a: Attempt) {
    var e := a.envelope;
    && Complete(e) && FitsPolicy(p, e) && InWindow(p, a)
    && e.signatureAlg == SIGNATURE_ALG && |e.detachedSignature| == SIGNATURE_SIZE
    && e.payloadSha256Hex == c.sha256Hex(e.payload)
    && e.deviceId in r
    && r[e.deviceId].publicKeyId == e.publicKeyId
    && CertBound(r[e.deviceId], e, a.peer)
    && c.verify(r[e.deviceId].publicKey, CanonicalBytes(e).value, e.detachedSignature)
  }

  /** The checks let through exactly the authentic envelopes. */
  lemma CheckIsAuthentic(c: Crypto, p: Policy, r: Registry, a: Attempt)
    ensures Check(c, p, r, a).None? <==> Authentic(c, p, r, a)
  {
    var e := a.envelope;
    if e.deviceId in r {
      var d := r[e.deviceId];
      assert BindClientCert(d, e, a.peer).None? <==> CertBound(d, e, a.peer);
    }
  }

  // ----- Verify with the durable guard -----

  function CallOf(e: SignedEnvelope): Call {
    Call(e.deviceId, e.frameId, e.sequence)
  }

  function GuardError(answer: Answer): Option<AuthError> {
    if answer == Accepted then None else Some(GuardRejected(answer))
  }

  function Verdict(c: Crypto, p: Policy, r: Registry, t: Sqlite.Tables, a: Attempt, fault: Sqlite.Fault)
    : (Sqlite.Tables, Option<AuthError>)
  {
    var err := Check(c, p, r, a);
    if err.Some? then (t, err)
    else
      var (t', answer) := Sqlite.Step(t, CallOf(a.envelope), fault);
      (t', GuardError(answer))
  }

  /** The verdict on an attempt, exactly: who is let in, and which error a replay gets. */
  lemma VerdictExactly(c: Crypto, p: Policy, r: Registry, t: Sqlite.Tables, a: Attempt)
    ensures var (t', err) := Verdict(c, p, r, t, a, Sqlite.NoFault);
            var call := CallOf(a.envelope);
            && (err.None? <==>
                  Authentic(c, p, r, a) && Sqlite.IsNew(t, call) && call.sequence <= Sqlite.MAX_INTEGER)
            && (err.None? ==> t' == Sqlite.Recorded(t, call))
            && (err.Some? ==> t' == t)
            && (err.Some? && Authentic(c, p, r, a) ==>
                  err == Some(GuardRejected(if Sqlite.IsNew(t, call) then StoreFailed else Replayed)))
  {
    CheckIsAuthentic(c, p, r, a);
    if Check(c, p, r, a).None? {
      Sqlite.StepExactly(t, CallOf(a.envelope));
    }
  }

  class DurableVerifier {
    const crypto: Crypto
    const policy: Policy
    const registry: Registry
    const guard: Sqlite.SQLiteReplayGuard

    constructor (crypto: Crypto, policy: Policy, registry: Registry, guard: Sqlite.SQLiteReplayGuard)
      ensures this.crypto == crypto && this.policy == policy
      ensures this.registry == registry && this.guard == guard
    {
      this.crypto, this.policy, this.registry, this.guard := crypto, policy, registry, guard;
    }

    method Verify(a: Attempt, fault: Sqlite.Fault) returns (err: Option<AuthError>)
      modifies guard
      ensures (guard.db, err) == Verdict(crypto, policy, registry, old(guard.db), a, fault)
    {
      err := Check(crypto, policy, registry, a);
      if err.Some? {
        return;
      }
      var answer := guard.CheckAndRecord(a.envelope.deviceId, a.envelope.frameId, a.envelope.sequence, fault);
      err := GuardError(answer);
    }
  }

  // ----- erasure over whole runs -----

  datatype Setup = Setup(crypto: Crypto, policy: Policy, registry: Registry)

  function Run(v: Setup, t: Sqlite.Tables, attempts: seq<Attempt>): Sqlite.Tables {
    if attempts == [] then t
    else
      Verdict(v.crypto, v.policy, v.registry, Run(v, t, attempts[..|attempts| - 1]),
             attempts[|attempts| - 1], Sqlite.NoFault).0
  }

  function Outcome(v: Setup, t: Sqlite.Tables, before: seq<Attempt>, a: Attempt): Option<AuthError> {
    Verdict(v.crypto, v.policy, v.registry, Run(v, t, before), a, Sqlite.NoFault).1
  }

  /** The attempts that were verified. */
  function Kept(v: Setup, t: Sqlite.Tables, attempts: seq<Attempt>): seq<Attempt> {
    if attempts == [] then []
    else
      var before := attempts[..|attempts| - 1];
      var a := attempts[|attempts| - 1];
      var kept := Kept(v, t, before);
      if Outcome(v, t, before, a).None? then kept + [a] else kept
  }

  /** Every attempt of the history is verified. */
  predicate AllVerified(v: Setup, t: Sqlite.Tables, attempts: seq<Attempt>) {
    forall i :: 0 <= i < |attempts| ==> Outcome(v, t, attempts[..i], attempts[i]).None?
  }

  /**
   Deleting every attempt that a check or the guard rejected leaves the tables as they were
   and every remaining attempt verified.
   */
  lemma {:induction false} RejectionsLeaveNoTrace(v: Setup, t: Sqlite.Tables, attempts: seq<Attempt>)
    ensures var kept := Kept(v, t, attempts);
            Run(v, t, kept) == Run(v, t, attempts) && AllVerified(v, t, kept)
  {
    if attempts != [] {
      var before := attempts[..|attempts| - 1];
      var a := attempts[|attempts| - 1];
      RejectionsLeaveNoTrace(v, t, before);
      RejectedAnswerKeepsTables(Run(v, t, before), CallOf(a.envelope));
      if Outcome(v, t, before, a).None? {
        VerifiedSnoc(v, t, Kept(v, t, before), a);
      }
    }
  }

  lemma VerifiedSnoc(v: Setup, t: Sqlite.Tables, kept: seq<Attempt>, a: Attempt)
    requires AllVerified(v, t, kept) && Outcome(v, t, kept, a).None?
    ensures AllVerified(v, t, kept + [a]) && (kept + [a])[..|kept|] == kept
  {
    var all := kept + [a];
    forall i | 0 <= i < |all| ensures Outcome(v, t, all[..i], all[i]).None? {
      if i < |kept| {
        assert all[..i] == kept[..i] && all[i] == kept[i];
      } else {
        assert all[..i] == kept;
      }
    }
  }

  lemma RejectedAnswerKeepsTables(t: Sqlite.Tables, c: Call)
    ensures Sqlite.Step(t, c, Sqlite.NoFault).1 != Accepted ==> Sqlite.Step(t, c, Sqlite.NoFault).0 == t
  {
  }

  // ----- the same for the memory guard, up to what can be observed -----

  function MemoryVerdict(v: Setup, limit: int, m: Memory.Devices, a: Attempt)
    : (Memory.Devices, Option<AuthError>)
  {
    var err := Check(v.crypto, v.policy, v.registry, a);
    if err.Some? then (m, err)
    else
      var (m', answer) := Memory.Step(limit, m, CallOf(a.envelope));
      (m', GuardError(answer))
  }

  function MemoryRun(v: Setup, limit: int, attempts: seq<Attempt>): Memory.Devices {
    if attempts == [] then map[]
    else MemoryVerdict(v, limit, MemoryRun(v, limit, attempts[..|attempts| - 1]), attempts[|attempts| - 1]).0
  }

  function MemoryKept(v: Setup, limit: int, attempts: seq<Attempt>): seq<Attempt> {
    if attempts == [] then []
    else
      var before := attempts[..|attempts| - 1];
      var a := attempts[|attempts| - 1];
      var kept := MemoryKept(v, limit, before);
      if MemoryVerdict(v, limit, MemoryRun(v, limit, before), a).1.None? then kept + [a] else kept
  }

  predicate AllPass(v: Setup, limit: int, attempts: seq<Attempt>) {
    forall i :: 0 <= i < |attempts| ==>
      MemoryVerdict(v, limit, MemoryRun(v, limit, attempts[..i]), attempts[i]).1.None?
  }

  /** No device can tell the two states apart; one may hold an entry without accepted calls. */
  ghost predicate SameView(m: Memory.Devices, n: Memory.Devices) {
    forall d :: Memory.Lookup(m, d) == Memory.Lookup(n, d)
  }

  lemma VerdictSeesView(v: Setup, limit: int, m: Memory.Devices, n: Memory.Devices, a: Attempt)
    requires SameView(m, n)
    ensures var x, y := MemoryVerdict(v, limit, m, a), MemoryVerdict(v, limit, n, a);
            x.1 == y.1 && SameView(x.0, y.0) && (x.1.Some? ==> SameView(x.0, m))
  {
    var c := CallOf(a.envelope);
    assert Memory.Lookup(m, c.device) == Memory.Lookup(n, c.device);
    forall d
      ensures Memory.Lookup(Memory.Step(limit, m, c).0, d) == Memory.Lookup(Memory.Step(limit, n, c).0, d)
      ensures Memory.Step(limit, m, c).1 != Accepted ==>
                Memory.Lookup(Memory.Step(limit, m, c).0, d) == Memory.Lookup(m, d)
    {
      assert Memory.Lookup(m, d) == Memory.Lookup(n, d);
    }
  }

  /** Deleting every rejected attempt leaves every device's state and every other verdict. */
  lemma {:induction false} MemoryRejectionsLeaveNoTrace(v: Setup, limit: int, attempts: seq<Attempt>)
    ensures var kept := MemoryKept(v, limit, attempts);
            SameView(MemoryRun(v, limit, kept), MemoryRun(v, limit, attempts)) && AllPass(v, limit, kept)
  {
    if attempts != [] {
      var before := attempts[..|attempts| - 1];
      var a := attempts[|attempts| - 1];
      var kept := MemoryKept(v, limit, before);
      MemoryRejectionsLeaveNoTrace(v, limit, before);
      var m, n := MemoryRun(v, limit, kept), MemoryRun(v, limit, before);
      VerdictSeesView(v, limit, m, n, a);
      VerdictSeesView(v, limit, n, m, a);
      if MemoryVerdict(v, limit, n, a).1.None? {
        PassSnoc(v, limit, kept, a);
      } else {
        SameViewJoins(m, n, MemoryRun(v, limit, attempts));
      }
    }
  }

  lemma SameViewJoins(m: Memory.Devices, n: Memory.Devices, o: Memory.Devices)
    requires SameView(m, n) && SameView(o, n)
    ensures SameView(m, o)
  {
  }

  lemma PassSnoc(v: Setup, limit: int, kept: seq<Attempt>, a: Attempt)
    requires AllPass(v, limit, kept)
    requires MemoryVerdict(v, limit, MemoryRun(v, limit, kept), a).1.None?
    ensures AllPass(v, limit, kept + [a]) && (kept + [a])[..|kept|] == kept
  {
    var all := kept + [a];
    forall i | 0 <= i < |all|
      ensures MemoryVerdict(v, limit, MemoryRun(v, limit, all[..i]), all[i]).1.None?
    {
      if i < |kept| {
        assert all[..i] == kept[..i] && all[i] == kept[i];
      } else {
        assert all[..i] == kept;
      }
    }
  }
}
