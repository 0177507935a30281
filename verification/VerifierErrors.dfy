/** When an envelope is in time, counted in nanoseconds of the calendar, and which error each refusal gets. */
module VerifierErrors {
  import opened Text
  import opened Clock
  import opened TimeLine
  import opened Signing
  import opened Verifier

  // ----- the time window -----

  /** Not more than k nanoseconds lie between t and a later u. */
  ghost predicate Within(t: Time, k: nat, u: Time) {
    forall n: nat :: After(t, n, u) ==> n <= k
  }

  lemma WithinExactly(t: Time, k: nat, u: Time)
    ensures Within(t, k, u) <==> Nanos(u) - Nanos(t) <= k
  {
    if Nanos(u) >= Nanos(t) {
      AfterExactly(t, Nanos(u) - Nanos(t), u);
    }
    forall n: nat | After(t, n, u) ensures n == Nanos(u) - Nanos(t) {
      AfterExactly(t, n, u);
    }
  }

  /** The time to live in force; one of the whole 64-bit range never ends. */
  function Lifetime(p: Policy): Option<nat> {
    if p.ttl <= 0 then Some(300_000_000_000)
    else if p.ttl < 0x7fff_ffff_ffff_ffff then Some(p.ttl)
    else None
  }

  /**
   An envelope is in time exactly if it has a signing time, which is at most 30 seconds ahead of
   the first clock reading, and at the second one is at most 5 minutes old, or as old as the
   policy allows.
   */
  lemma InWindowExactly(p: Policy, a: Attempt)
    ensures InWindow(p, a) <==>
              && a.envelope.signedAt != ZERO_TIME
              && Within(a.now1, 30_000_000_000, a.envelope.signedAt)
              && (Lifetime(p).Some? ==> Within(a.envelope.signedAt, Lifetime(p).value, a.now2))
  {
    WithinExactly(a.now1, 30_000_000_000, a.envelope.signedAt);
    if Lifetime(p).Some? {
      WithinExactly(a.envelope.signedAt, Lifetime(p).value, a.now2);
    }
  }

  /** To the nanosecond, without a configured time to live. */
  lemma EdgesOfTheWindow(p: Policy, a: Attempt, k: nat)
    requires p.ttl <= 0 && a.envelope.signedAt != ZERO_TIME
    ensures After(a.envelope.signedAt, k, a.now2) && !Precedes(a.now1, a.envelope.signedAt) ==>
              (InWindow(p, a) <==> k <= 5 * 60 * 1_000_000_000)
    ensures After(a.now1, k, a.envelope.signedAt) && !Precedes(a.envelope.signedAt, a.now2) ==>
              (InWindow(p, a) <==> k <= 30 * 1_000_000_000)
  {
    AfterExactly(a.envelope.signedAt, k, a.now2);
    AfterExactly(a.now1, k, a.envelope.signedAt);
    NanosOrder(a.now1, a.envelope.signedAt);
    NanosOrder(a.envelope.signedAt, a.now2);
  }

  // ----- which error -----

  // What has been found in order so far, check by check.

  predicate Identified(e: SignedEnvelope) {
    && e.protocolVersion != "" && e.deviceId != "" && e.trajectoryId != "" && e.frameId != ""
    && e.signatureAlg == "Ed25519"
  }

  predicate Sized(p: Policy, e: SignedEnvelope) {
    && Identified(e) && |e.detachedSignature| == 64 && e.payload != ""
    && (p.maxPayloadBytes > 0 ==> |e.payload| <= p.maxPayloadBytes)
  }

  ghost predicate TooEarly(a: Attempt) {
    !Within(a.now1, 30_000_000_000, a.envelope.signedAt)
  }

  ghost predicate TooOld(p: Policy, a: Attempt) {
    Lifetime(p).Some? && !Within(a.envelope.signedAt, Lifetime(p).value, a.now2)
  }

  ghost predicate Timely(p: Policy, a: Attempt) {
    Sized(p, a.envelope) && a.envelope.signedAt != ZERO_TIME && !TooEarly(a) && !TooOld(p, a)
  }

  ghost predicate Hashed(c: Crypto, p: Policy, a: Attempt) {
    && Timely(p, a) && a.envelope.payloadSha256Hex != ""
    && a.envelope.payloadSha256Hex == c.sha256Hex(a.envelope.payload)
  }

  ghost predicate Keyed(c: Crypto, p: Policy, r: Registry, a: Attempt) {
    var e := a.envelope;
    Hashed(c, p, a) && e.deviceId in r && r[e.deviceId].publicKeyId == e.publicKeyId
  }

  /** The shape errors. */
  lemma ShapeErrors(p: Policy, e: SignedEnvelope)
    ensures var err := CheckShape(p, e);
            && (err == None <==> Sized(p, e))
            && (err == Some(MissingSignature) <==> Identified(e) && e.detachedSignature == "")
            && (err == Some(InvalidSignature) <==>
                  Identified(e) && e.detachedSignature != "" && |e.detachedSignature| != 64)
            && (err == Some(OversizedPayload) <==>
                  && Identified(e) && |e.detachedSignature| == 64
                  && 0 < p.maxPayloadBytes < |e.payload|)
            && (err == Some(MalformedEnvelope) <==>
                  !Identified(e) || (|e.detachedSignature| == 64 && e.payload == ""))
  {
  }

  /** The time errors. */
  lemma TimeErrors(p: Policy, a: Attempt)
    ensures var err := CheckTime(p, a);
            && (err == Some(MalformedEnvelope) <==> a.envelope.signedAt == ZERO_TIME)
            && (err == Some(FuturePayload) <==> a.envelope.signedAt != ZERO_TIME && TooEarly(a))
            && (err == Some(ExpiredPayload) <==>
                  a.envelope.signedAt != ZERO_TIME && !TooEarly(a) && TooOld(p, a))
            && (err == None <==> a.envelope.signedAt != ZERO_TIME && !TooEarly(a) && !TooOld(p, a))
  {
    WithinExactly(a.now1, 30_000_000_000, a.envelope.signedAt);
    if Lifetime(p).Some? {
      WithinExactly(a.envelope.signedAt, Lifetime(p).value, a.now2);
    }
  }

  /** The errors about the device. */
  lemma DeviceErrors(c: Crypto, d: Device, a: Attempt)
    requires Complete(a.envelope)
    ensures var e := a.envelope;
            var err := CheckDevice(c, d, a);
            var verified := c.verify(d.publicKey, CanonicalBytes(e).value, e.detachedSignature);
            && (err == Some(Unauthorized) <==> d.publicKeyId != e.publicKeyId)
            && (err == Some(CertMismatch) <==> d.publicKeyId == e.publicKeyId && !CertBound(d, e, a.peer))
            && (err == Some(InvalidSignature) <==>
                  d.publicKeyId == e.publicKeyId && CertBound(d, e, a.peer) && !verified)
            && (err == None <==> d.publicKeyId == e.publicKeyId && CertBound(d, e, a.peer) && verified)
  {
  }

  /** Each error of Verify before the guard, by the first check that fails. */
  lemma ErrorsExactly(c: Crypto, p: Policy, r: Registry, a: Attempt)
    ensures var e := a.envelope;
            var err := Check(c, p, r, a);
            && (err == Some(MissingSignature) <==> Identified(e) && e.detachedSignature == "")
            && (err == Some(OversizedPayload) <==>
                  && Identified(e) && |e.detachedSignature| == 64
                  && 0 < p.maxPayloadBytes < |e.payload|)
            && (err == Some(FuturePayload) <==> Sized(p, e) && e.signedAt != ZERO_TIME && TooEarly(a))
            && (err == Some(ExpiredPayload) <==>
                  Sized(p, e) && e.signedAt != ZERO_TIME && !TooEarly(a) && TooOld(p, a))
            && (err == Some(Unauthorized) <==> Hashed(c, p, a) && !Keyed(c, p, r, a))
            && (err == Some(CertMismatch) <==> Keyed(c, p, r, a) && !CertBound(r[e.deviceId], e, a.peer))
            && (err == Some(InvalidSignature) <==>
                  || (Identified(e) && e.detachedSignature != "" && |e.detachedSignature| != 64)
                  || (Keyed(c, p, r, a) && CertBound(r[e.deviceId], e, a.peer)
                      && !c.verify(r[e.deviceId].publicKey, CanonicalBytes(e).value, e.detachedSignature)))
            && (err == Some(MalformedEnvelope) <==>
                  || !Identified(e) || (|e.detachedSignature| == 64 && e.payload == "")
                  || (Sized(p, e) && e.signedAt == ZERO_TIME)
                  || (Timely(p, a) && !Hashed(c, p, a)))
  {
    ShapeErrors(p, a.envelope);
    TimeErrors(p, a);
    if Hashed(c, p, a) && a.envelope.deviceId in r {
      DeviceErrors(c, r[a.envelope.deviceId], a);
    }
  }
}
