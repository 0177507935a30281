/**
 The signed envelope of server/pkg/signing: its canonical byte layout, signing, and the
 conversion to and from the wire message.

 Ed25519 (section 5.1 of RFC 8032) and SHA-256 are parameters; `Sound` states all that is
 assumed of them.
 */
module Signing {
  import opened Text
  import opened Clock

  const UINT64_LIMIT: nat := 0x1_0000_0000_0000_0000

  type Uint64 = n: nat | n < UINT64_LIMIT

  datatype SignedEnvelope = SignedEnvelope(
    protocolVersion: string, deviceId: string, trajectoryId: string, frameId: string,
    sequence: Uint64, signedAt: Time, payload: string, detachedSignature: string,
    payloadSha256Hex: string, signatureAlg: string, publicKeyId: string,
    clientCertFingerprintSha256: string)

  datatype SigningError = Malformed | BadKeySize

  const SIGNATURE_ALG := "Ed25519"
  const PRIVATE_KEY_SIZE := 64
  const PUBLIC_KEY_SIZE := 32
  const SIGNATURE_SIZE := 64

  datatype Crypto = Crypto(
    sha256Hex: string -> string,
    publicKey: string -> string,
    sign: (string, string) -> string,
    verify: (string, string, string) -> bool)

  /** Sign-then-verify, and the fixed lengths. */
  ghost predicate Sound(c: Crypto) {
    && (forall m :: |c.sha256Hex(m)| == 64)
    && (forall k :: |k| == PRIVATE_KEY_SIZE ==> |c.publicKey(k)| == PUBLIC_KEY_SIZE)
    && (forall k, m :: |k| == PRIVATE_KEY_SIZE ==>
          |c.sign(k, m)| == SIGNATURE_SIZE && c.verify(c.publicKey(k), m, c.sign(k, m)))
  }

  // ----- the canonical layout -----

  const HEADER := "golem-harness-signature-v2\n"

  const LABELS: seq<string> := [
    "protocol_version=", "device_id=", "trajectory_id=", "frame_id=", "sequence=", "signed_at=",
    "payload_sha256_hex=", "signature_alg=", "public_key_id=", "client_cert_fingerprint_sha256="]

  function Values(e: SignedEnvelope): (vs: seq<string>)
    ensures |vs| == |LABELS|
  {
    [e.protocolVersion, e.deviceId, e.trajectoryId, e.frameId, Dec(e.sequence),
     Rfc3339Nano(e.signedAt), e.payloadSha256Hex, e.signatureAlg, e.publicKeyId,
     e.clientCertFingerprintSha256]
  }

  function Lines(labels: seq<string>, values: seq<string>): string
    requires |labels| == |values|
  {
    if labels == [] then "" else labels[0] + values[0] + "\n" + Lines(labels[1..], values[1..])
  }

  predicate Complete(e: SignedEnvelope) {
    && e.protocolVersion != "" && e.deviceId != "" && e.trajectoryId != "" && e.frameId != ""
    && e.payloadSha256Hex != "" && e.signatureAlg != ""
  }

  function CanonicalBytes(e: SignedEnvelope): Result<string, SigningError> {
    if !Complete(e) then Err(Malformed)
    else Ok(HEADER + Lines(LABELS, Values(e)) + "\n" + e.payload)
  }

  // ----- reading the layout back -----

  /** Everything the signature covers. */
  datatype Covered = Covered(
    protocolVersion: string, deviceId: string, trajectoryId: string, frameId: string,
    sequence: nat, signedAt: Calendar, payloadSha256Hex: string, signatureAlg: string,
    publicKeyId: string, clientCertFingerprintSha256: string, payload: string)

  function CoveredBy(e: SignedEnvelope): Covered {
    Covered(e.protocolVersion, e.deviceId, e.trajectoryId, e.frameId, e.sequence, e.signedAt,
            e.payloadSha256Hex, e.signatureAlg, e.publicKeyId, e.clientCertFingerprintSha256,
            e.payload)
  }

  /** One value per label, and what follows the lines. */
  function ParseLines(labels: seq<string>, s: string): (r: Option<(seq<string>, string)>)
    ensures r.Some? ==> |r.value.0| == |labels|
  {
    if labels == [] then Some(([], s))
    else if !(labels[0] <= s) then None
    else
      match Cut(s[|labels[0]|..], '\n')
      case None => None
      case Some((value, rest)) =>
        match ParseLines(labels[1..], rest)
        case None => None
        case Some((values, end)) => Some(([value] + values, end))
  }

  /** Reads the two values that are not plain strings, and splits off the blank line. */
  function Assemble(v: seq<string>, rest: string): Option<Covered>
    requires |v| == |LABELS|
  {
    if rest == "" || rest[0] != '\n' || !Canonical(v[4]) then None
    else
      match ParseTime(v[5])
      case None => None
      case Some(t) =>
        Some(Covered(v[0], v[1], v[2], v[3], Val(v[4]), t, v[6], v[7], v[8], v[9], rest[1..]))
  }

  function Parse(b: string): Option<Covered> {
    if !(HEADER <= b) then None
    else
      match ParseLines(LABELS, b[|HEADER|..])
      case None => None
      case Some((v, rest)) => Assemble(v, rest)
  }

  predicate OneLine(s: string) {
    '\n' !in s
  }

  predicate NoNewlines(e: SignedEnvelope) {
    && OneLine(e.protocolVersion) && OneLine(e.deviceId) && OneLine(e.trajectoryId)
    && OneLine(e.frameId) && OneLine(e.payloadSha256Hex) && OneLine(e.signatureAlg)
    && OneLine(e.publicKeyId) && OneLine(e.clientCertFingerprintSha256)
  }

  lemma LineParses(name: string, value: string, tail: string)
    requires OneLine(value)
    ensures var s := name + value + "\n" + tail;
            name <= s && Cut(s[|name|..], '\n') == Some((value, tail))
  {
    assert name + value + "\n" + tail == name + (value + ['\n'] + tail);
    PrefixDrops(name, value + ['\n'] + tail);
    CutAt(value, '\n', tail);
  }

  lemma {:induction false} LinesRoundTrip(labels: seq<string>, values: seq<string>, rest: string)
    requires |labels| == |values|
    requires forall i :: 0 <= i < |values| ==> OneLine(values[i])
    ensures ParseLines(labels, Lines(labels, values) + rest) == Some((values, rest))
  {
    if labels != [] {
      var more := Lines(labels[1..], values[1..]);
      LineParses(labels[0], values[0], more + rest);
      assert Lines(labels, values) + rest == labels[0] + values[0] + "\n" + (more + rest);
      LinesRoundTrip(labels[1..], values[1..], rest);
      assert values == [values[0]] + values[1..];
    } else {
      assert Lines(labels, values) + rest == rest;
    }
  }

  lemma {:induction false} ParsedLinesAreLines(labels: seq<string>, s: string)
    ensures ParseLines(labels, s).Some? ==>
              forall i :: 0 <= i < |labels| ==> OneLine(ParseLines(labels, s).value.0[i])
  {
    if labels != [] && labels[0] <= s {
      CutSound(s[|labels[0]|..], '\n');
      var c := Cut(s[|labels[0]|..], '\n');
      if c.Some? {
        ParsedLinesAreLines(labels[1..], c.value.1);
      }
    }
  }

  lemma DecIsCanonical(n: nat)
    ensures Canonical(Dec(n)) && Val(Dec(n)) == n && OneLine(Dec(n))
  {
  }

  lemma ValuesAssemble(e: SignedEnvelope)
    ensures Assemble(Values(e), "\n" + e.payload) == Some(CoveredBy(e))
  {
    PrintedReads(Values(e)[4], Values(e)[5], e.sequence, e.signedAt);
    AssembleReads(Values(e), CoveredBy(e), "\n" + e.payload);
  }

  /** The two printed values can be read. */
  predicate Reads(number: string, stamp: string, n: nat, t: Calendar) {
    Canonical(number) && Val(number) == n && ParseTime(stamp) == Some(t)
  }

  lemma PrintedReads(number: string, stamp: string, n: nat, t: Time)
    requires number == Dec(n) && stamp == Rfc3339Nano(t)
    ensures Reads(number, stamp, n, t)
  {
    DecIsCanonical(n);
    TimeRoundTrip(t);
  }

  lemma AssembleReads(v: seq<string>, c: Covered, rest: string)
    requires |v| == |LABELS| && Reads(v[4], v[5], c.sequence, c.signedAt)
    requires v[..4] == [c.protocolVersion, c.deviceId, c.trajectoryId, c.frameId]
    requires v[6..] == [c.payloadSha256Hex, c.signatureAlg, c.publicKeyId, c.clientCertFingerprintSha256]
    requires rest == "\n" + c.payload
    ensures Assemble(v, rest) == Some(c)
  {
    assert rest[1..] == c.payload;
    assert v[..4][0] == v[0] && v[..4][1] == v[1] && v[..4][2] == v[2] && v[..4][3] == v[3];
    assert v[6..][0] == v[6] && v[6..][1] == v[7] && v[6..][2] == v[8] && v[6..][3] == v[9];
  }

  lemma ValuesAreLines(e: SignedEnvelope)
    requires NoNewlines(e)
    ensures forall i :: 0 <= i < |Values(e)| ==> OneLine(Values(e)[i])
  {
    DecIsCanonical(e.sequence);
    TimeHasNoNewline(e.signedAt);
  }

  lemma CanonicalParses(e: SignedEnvelope)
    requires Complete(e) && NoNewlines(e)
    ensures Parse(CanonicalBytes(e).value) == Some(CoveredBy(e))
  {
    LayoutParses(HEADER, LABELS, Values(e), e.payload) by {
      ValuesAreLines(e);
    }
    ValuesAssemble(e);
  }

  lemma LayoutRegroups(header: string, body: string, blank: string, payload: string)
    ensures header + body + blank + payload == header + (body + (blank + payload))
  {
  }

  lemma LayoutParses(header: string, labels: seq<string>, values: seq<string>, payload: string)
    requires |labels| == |values|
    requires forall i :: 0 <= i < |values| ==> OneLine(values[i])
    ensures var b := header + Lines(labels, values) + "\n" + payload;
            && header <= b
            && ParseLines(labels, b[|header|..]) == Some((values, "\n" + payload))
  {
    LayoutRegroups(header, Lines(labels, values), "\n", payload);
    PrefixDrops(header, Lines(labels, values) + ("\n" + payload));
    LinesRoundTrip(labels, values, "\n" + payload);
  }

  /**
   Round trip, exactly: the parser gives back every covered field and the payload, whatever
   bytes the payload holds, if and only if no string field contains a newline.
   */
  lemma CanonicalRoundTrip(e: SignedEnvelope)
    requires Complete(e)
    ensures Parse(CanonicalBytes(e).value) == Some(CoveredBy(e)) <==> NoNewlines(e)
  {
    if NoNewlines(e) {
      CanonicalParses(e);
    }
    var b := CanonicalBytes(e).value;
    if Parse(b) == Some(CoveredBy(e)) {
      ParsedLinesAreLines(LABELS, b[|HEADER|..]);
      var v := ParseLines(LABELS, b[|HEADER|..]).value.0;
      assert v[0] == e.protocolVersion && v[1] == e.deviceId && v[2] == e.trajectoryId
          && v[3] == e.frameId && v[6] == e.payloadSha256Hex && v[7] == e.signatureAlg
          && v[8] == e.publicKeyId && v[9] == e.clientCertFingerprintSha256;
    }
  }

  /** One line of the layout. */
  function Line(name: string, value: string): string {
    name + value + "\n"
  }

  function LineList(labels: seq<string>, values: seq<string>): seq<string>
    requires |labels| == |values|
  {
    seq(|labels|, i requires 0 <= i < |labels| => Line(labels[i], values[i]))
  }

  lemma {:induction false} LinesAreJoined(labels: seq<string>, values: seq<string>)
    requires |labels| == |values|
    ensures Lines(labels, values) == Joined(LineList(labels, values))
  {
    if labels != [] {
      LinesAreJoined(labels[1..], values[1..]);
      assert LineList(labels, values)[1..] == LineList(labels[1..], values[1..]);
    }
  }

  lemma FramedAreJoined(header: string, lines: seq<string>, blank: string, payload: string)
    ensures Joined([header] + lines + [blank, payload]) == header + Joined(lines) + blank + payload
  {
    JoinedAppend([header] + lines, [blank, payload]);
    JoinedAppend([header], lines);
    JoinedSnoc([], header);
    JoinedSnoc([blank], payload);
    JoinedSnoc([], blank);
    assert [blank] + [payload] == [blank, payload] && [] + [header] == [header] && [] + [blank] == [blank];
    ConcatAssociates(header + Joined(lines), blank, payload);
  }

  /** The layout, written out. */
  function Layout(e: SignedEnvelope): (parts: seq<string>)
    ensures |parts| == 13
  {
    ["golem-harness-signature-v2\n",
     Line("protocol_version=", e.protocolVersion),
     Line("device_id=", e.deviceId),
     Line("trajectory_id=", e.trajectoryId),
     Line("frame_id=", e.frameId),
     Line("sequence=", Dec(e.sequence)),
     Line("signed_at=", Rfc3339Nano(e.signedAt)),
     Line("payload_sha256_hex=", e.payloadSha256Hex),
     Line("signature_alg=", e.signatureAlg),
     Line("public_key_id=", e.publicKeyId),
     Line("client_cert_fingerprint_sha256=", e.clientCertFingerprintSha256),
     "\n",
     e.payload]
  }

  lemma LayoutLines(e: SignedEnvelope)
    ensures LineList(LABELS, Values(e)) == Layout(e)[1..11]
  {
  }

  lemma LayoutFrame(parts: seq<string>)
    requires |parts| == 13
    ensures parts == [parts[0]] + parts[1..11] + [parts[11], parts[12]]
  {
  }

  /** A device signs exactly these bytes. */
  lemma CanonicalLayout(e: SignedEnvelope)
    requires Complete(e)
    ensures CanonicalBytes(e) == Ok(Joined(Layout(e)))
  {
    LinesAreJoined(LABELS, Values(e));
    LayoutLines(e);
    LayoutFrame(Layout(e));
    FramedAreJoined(Layout(e)[0], Layout(e)[1..11], "\n", e.payload);
  }

  /** Two envelopes sign the same bytes only if they agree on everything covered. */
  lemma CanonicalInjective(e: SignedEnvelope, f: SignedEnvelope)
    requires Complete(e) && Complete(f) && NoNewlines(e) && NoNewlines(f)
    requires CanonicalBytes(e) == CanonicalBytes(f)
    ensures CoveredBy(e) == CoveredBy(f)
  {
    CanonicalParses(e);
    CanonicalParses(f);
  }

  /** A newline makes the layout ambiguous: the last line's value can absorb a blank line. */
  lemma NewlineIsAmbiguous(e: SignedEnvelope)
    requires Complete(e)
    ensures var f := e.(clientCertFingerprintSha256 := "", payload := "\n" + e.payload);
            var g := e.(clientCertFingerprintSha256 := "\n", payload := e.payload);
            f != g && CanonicalBytes(f) == CanonicalBytes(g)
  {
    var f := e.(clientCertFingerprintSha256 := "", payload := "\n" + e.payload);
    var g := e.(clientCertFingerprintSha256 := "\n", payload := e.payload);
    assert f.clientCertFingerprintSha256 != g.clientCertFingerprintSha256;
    var v := Values(f)[..9];
    assert Values(f) == v + [""];
    assert Values(g) == v + ["\n"];
    assert LABELS == LABELS[..9] + [LABELS[9]];
    Absorb(HEADER, LABELS[..9], LABELS[9], v, e.payload);
  }

  lemma Absorb(header: string, labels: seq<string>, name: string, v: seq<string>, payload: string)
    requires |labels| == |v|
    ensures header + Lines(labels + [name], v + [""]) + "\n" + ("\n" + payload) ==
            header + Lines(labels + [name], v + ["\n"]) + "\n" + payload
  {
    LastLine(labels, v, name, "");
    LastLine(labels, v, name, "\n");
    var p := Lines(labels, v) + name;
    assert header + (p + "" + "\n") + "\n" + ("\n" + payload) ==
           header + (p + "\n" + "\n") + "\n" + payload;
  }

  lemma {:induction false} LastLine(labels: seq<string>, values: seq<string>, name: string, value: string)
    requires |labels| == |values|
    ensures Lines(labels + [name], values + [value]) == Lines(labels, values) + name + value + "\n"
  {
    var ls, vs := labels + [name], values + [value];
    if labels == [] {
      assert ls[1..] == [] && vs[1..] == [];
      assert Lines(ls[1..], vs[1..]) == "";
    } else {
      LastLine(labels[1..], values[1..], name, value);
      assert ls[1..] == labels[1..] + [name];
      assert vs[1..] == values[1..] + [value];
    }
  }

  // ----- signing -----

  function SignEnvelope(c: Crypto, privateKey: string, e: SignedEnvelope): Result<SignedEnvelope, SigningError> {
    if |privateKey| != PRIVATE_KEY_SIZE then Err(BadKeySize)
    else
      var alg := if e.signatureAlg == "" then SIGNATURE_ALG else e.signatureAlg;
      if alg != SIGNATURE_ALG then Err(Malformed)
      else
        var e' := e.(signatureAlg := alg, payloadSha256Hex := c.sha256Hex(e.payload));
        match CanonicalBytes(e')
        case Err(err) => Err(err)
        case Ok(b) => Ok(e'.(detachedSignature := c.sign(privateKey, b)))
  }

  // ----- the wire message -----

  datatype WireEnvelope = WireEnvelope(
    protocolVersion: string, deviceId: string, trajectoryId: string, frameId: string,
    sequence: Uint64, signedAt: Option<Time>, canonicalPayload: string, detachedSignature: string,
    payloadSha256Hex: string, signatureAlg: string, publicKeyId: string,
    clientCertFingerprintSha256: string)

  function EnvelopeToProto(e: SignedEnvelope): WireEnvelope {
    WireEnvelope(
      e.protocolVersion, e.deviceId, e.trajectoryId, e.frameId, e.sequence,
      if IsZero(e.signedAt) then None else Some(e.signedAt),
      e.payload, e.detachedSignature, e.payloadSha256Hex, e.signatureAlg, e.publicKeyId,
      e.clientCertFingerprintSha256)
  }

  function EnvelopeFromProto(w: Option<WireEnvelope>): Result<SignedEnvelope, SigningError> {
    if w.None? || w.value.signedAt.None? then Err(Malformed)
    else
      var m := w.value;
      Ok(SignedEnvelope(
           m.protocolVersion, m.deviceId, m.trajectoryId, m.frameId, m.sequence,
           m.signedAt.value, m.canonicalPayload, m.detachedSignature, m.payloadSha256Hex,
           m.signatureAlg, m.publicKeyId, m.clientCertFingerprintSha256))
  }

  /** The wire carries every envelope faithfully, except that a zero time cannot be sent. */
  lemma WireRoundTrip(e: SignedEnvelope)
    ensures EnvelopeFromProto(Some(EnvelopeToProto(e))) ==
            if IsZero(e.signedAt) then Err(Malformed) else Ok(e)
  {
  }

  /** Each field of an envelope that was read is the message's field of the same name. */
  lemma WireFields(w: WireEnvelope)
    ensures EnvelopeFromProto(None) == Err(Malformed)
    ensures w.signedAt == None ==> EnvelopeFromProto(Some(w)) == Err(Malformed)
    ensures w.signedAt.Some? ==>
              var r := EnvelopeFromProto(Some(w));
              && r.Ok?
              && var e := r.value;
                 && e.protocolVersion == w.protocolVersion && e.deviceId == w.deviceId
                 && e.trajectoryId == w.trajectoryId && e.frameId == w.frameId && e.sequence == w.sequence
                 && e.signedAt == w.signedAt.value && e.payload == w.canonicalPayload
                 && e.detachedSignature == w.detachedSignature && e.payloadSha256Hex == w.payloadSha256Hex
                 && e.signatureAlg == w.signatureAlg && e.publicKeyId == w.publicKeyId
                 && e.clientCertFingerprintSha256 == w.clientCertFingerprintSha256
  {
  }
}
