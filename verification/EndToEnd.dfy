/** From a device's SignEnvelope, over the wire, to the server's verdict. */
module EndToEnd {
  import opened Text
  import opened Clock
  import opened Signing
  import opened Replay
  import opened Verifier
  import Memory = MemoryGuard
  import Sqlite = SqliteGuard

  /** What the device and the registry must agree on. */
  predicate Registered(c: Crypto, r: Registry, privateKey: string, e: SignedEnvelope) {
    && e.deviceId in r
    && r[e.deviceId].publicKey == c.publicKey(privateKey)
    && r[e.deviceId].publicKeyId == e.publicKeyId
  }

  predicate Fillable(e: SignedEnvelope) {
    && e.protocolVersion != "" && e.deviceId != "" && e.trajectoryId != "" && e.frameId != ""
    && e.signatureAlg in {"", SIGNATURE_ALG}
  }

  /** SignEnvelope succeeds on exactly these envelopes, and changes only what it must. */
  lemma SigningSucceeds(c: Crypto, privateKey: string, e: SignedEnvelope)
    requires Sound(c) && |privateKey| == PRIVATE_KEY_SIZE
    ensures var s := SignEnvelope(c, privateKey, e);
            && (s.Ok? <==> Fillable(e))
            && (s.Ok? ==>
                  var out := s.value;
                  && Complete(out) && out.signatureAlg == SIGNATURE_ALG
                  && out == e.(signatureAlg := SIGNATURE_ALG, payloadSha256Hex := out.payloadSha256Hex,
                               detachedSignature := out.detachedSignature)
                  && out.payloadSha256Hex == c.sha256Hex(e.payload)
                  && |out.detachedSignature| == SIGNATURE_SIZE
                  && c.verify(c.publicKey(privateKey), CanonicalBytes(out).value, out.detachedSignature))
  {
    assert |c.sha256Hex(e.payload)| == 64;
    var s := SignEnvelope(c, privateKey, e);
    if s.Ok? {
      var unsigned := e.(signatureAlg := SIGNATURE_ALG, payloadSha256Hex := c.sha256Hex(e.payload));
      assert CanonicalBytes(s.value) == CanonicalBytes(unsigned) by {
        assert Values(s.value) == Values(unsigned);
      }
    }
  }

  /** Whatever the guard says next, the checks let the signed envelope through. */
  lemma SignedPassesChecks(
    c: Crypto, p: Policy, r: Registry, privateKey: string, e: SignedEnvelope, peer: string, now1: Time, now2: Time)
    requires Sound(c) && |privateKey| == PRIVATE_KEY_SIZE
    requires Fillable(e) && FitsPolicy(p, e) && Registered(c, r, privateKey, e)
    requires CertBound(r[e.deviceId], e, peer) && InWindow(p, Attempt(e, peer, now1, now2))
    ensures var signed := SignEnvelope(c, privateKey, e);
            && signed.Ok?
            && CallOf(signed.value) == CallOf(e)
            && Check(c, p, r, Attempt(signed.value, peer, now1, now2)).None?
  {
    SigningSucceeds(c, privateKey, e);
    var a := Attempt(SignEnvelope(c, privateKey, e).value, peer, now1, now2);
    assert InWindow(p, a);
    assert Authentic(c, p, r, a);
    CheckIsAuthentic(c, p, r, a);
  }

  /**
   Completeness.  An envelope signed with the registered key and sent over the wire reaches
   the verifier unchanged; the durable guard then decides alone: a used frame id or sequence
   is a replay, a new one passes exactly when the column can hold its sequence, and no
   rejection touches the tables.
   */
  lemma SignedEnvelopesVerify(
    c: Crypto, p: Policy, r: Registry, t: Sqlite.Tables,
    privateKey: string, e: SignedEnvelope, peer: string, now1: Time, now2: Time)
    requires Sound(c) && |privateKey| == PRIVATE_KEY_SIZE
    requires Fillable(e) && FitsPolicy(p, e) && Registered(c, r, privateKey, e)
    requires CertBound(r[e.deviceId], e, peer) && InWindow(p, Attempt(e, peer, now1, now2))
    ensures var signed := SignEnvelope(c, privateKey, e);
            && signed.Ok?
            && EnvelopeFromProto(Some(EnvelopeToProto(signed.value))) == signed
            && var verdict := Verdict(c, p, r, t, Attempt(signed.value, peer, now1, now2), Sqlite.NoFault);
               && (verdict.1.None? <==> Sqlite.IsNew(t, CallOf(e)) && e.sequence <= Sqlite.MAX_INTEGER)
               && (verdict.1.Some? ==>
                     verdict == (t, Some(GuardRejected(if Sqlite.IsNew(t, CallOf(e)) then StoreFailed else Replayed))))
  {
    SignedPassesChecks(c, p, r, privateKey, e, peer, now1, now2);
    var signed := SignEnvelope(c, privateKey, e).value;
    WireRoundTrip(signed);
    var a := Attempt(signed, peer, now1, now2);
    CheckIsAuthentic(c, p, r, a);
    VerdictExactly(c, p, r, t, a);
  }

  /** The same envelope against the memory guard: fresh, and room left for the device. */
  lemma SignedEnvelopesPassMemoryGuard(
    c: Crypto, p: Policy, r: Registry, limit: int, m: Memory.Devices,
    privateKey: string, e: SignedEnvelope, peer: string, now1: Time, now2: Time)
    requires Sound(c) && |privateKey| == PRIVATE_KEY_SIZE
    requires Fillable(e) && FitsPolicy(p, e) && Registered(c, r, privateKey, e)
    requires CertBound(r[e.deviceId], e, peer) && InWindow(p, Attempt(e, peer, now1, now2))
    ensures var signed := SignEnvelope(c, privateKey, e);
            && signed.Ok?
            && Check(c, p, r, Attempt(signed.value, peer, now1, now2)).None?
            && var st := Memory.Lookup(m, e.deviceId);
               Memory.Step(limit, m, CallOf(signed.value)).1 == Accepted <==>
                 && e.frameId !in st.seenFrames && e.sequence > st.maxSequence
                 && |st.seenFrames| < if limit <= 0 then 100_000 else limit
  {
    SignedPassesChecks(c, p, r, privateKey, e, peer, now1, now2);
  }
}
