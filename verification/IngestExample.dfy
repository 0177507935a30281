/** One server, two envelopes and eight steps after which the store is out of order. */
module IngestExample {
  import opened Text
  import opened Clock
  import opened Trajectory
  import opened Signing
  import opened Verifier
  import opened Sanitize
  import opened SanitizePipeline
  import opened StorageConservation
  import opened Ingest
  import opened IngestTheorems
  import opened IngestOrder
  import Sqlite = SqliteGuard
  import Storage

  function Filler(n: nat): (s: string)
    ensures |s| == n
  {
    seq(n, i => 'x')
  }

  /** Signatures of the right length that always verify. */
  const CRYPTO := Crypto(m => Filler(64), k => Filler(PUBLIC_KEY_SIZE), (k, m) => Filler(SIGNATURE_SIZE),
                         (k, m, s) => true)

  const DEVICE := Device("d", Filler(PUBLIC_KEY_SIZE), "", "")

  /** Nothing personal anywhere, and one allowed package. */
  const SETTINGS := Settings(
    Oracle((rule, raw) => false, raw => Some(0), raw => Filler(64)), shot => Some([]), {"p"}, map[], "s")

  /** A frame without identifiers; its sequence is the length of the payload. */
  function FrameOf(payload: string): RawFrame {
    var nowhere := Trajectory.Bounds(0, 0, 0, 0);
    RawFrame(
      "", "", "", |payload|, ZERO_TIME, DeviceMetadata("", "", "", ""), ForegroundApp("p", ""),
      RawNode(NodeAttributes("", nowhere, "", "", "", false, false, false, false, false), "", "", "", "", "", "", []),
      IntentMetadata("", "", [], "", ""), ActionMetadata("", "", "", nowhere, false, []),
      UISettleMetadata(false, 0, 0, ""), ScreenshotRef("", "", "", "", []),
      SignatureMetadata("", "", "", ""), map[])
  }

  const SERVER := Server(
    CRYPTO, Policy(0, 0), map["d" := DEVICE], SETTINGS,
    payload => Some(FrameOf(payload)), frame => Some("{}"), Storage.Config("f.jsonl", 0, false, false))

  const START := State(Sqlite.EMPTY, Storage.Sink(map[], false, 0, "", []), map[], [], [], {})

  function EnvelopeOf(payload: string, now: Time): SignedEnvelope
    requires |payload| < UINT64_LIMIT
  {
    SignedEnvelope("v", "d", "t", payload, |payload|, now, payload, Filler(SIGNATURE_SIZE), Filler(64),
                   SIGNATURE_ALG, "", "")
  }

  function AttemptOf(payload: string, now: Time): Attempt
    requires |payload| < UINT64_LIMIT
  {
    Attempt(EnvelopeOf(payload, now), "", now, now)
  }

  lemma AttemptIsAdmissible(payload: string, now: Time)
    requires 0 < |payload| <= Sqlite.MAX_INTEGER && !IsZero(now)
    ensures Admissible(SERVER, Sqlite.EMPTY, AttemptOf(payload, now))
  {
  }

  lemma PayloadBinds(payload: string, now: Time)
    requires 0 < |payload| < UINT64_LIMIT
    ensures var f := Payload(SERVER, EnvelopeOf(payload, now));
            f.Some? && f.value.uiRoot == FrameOf(payload).uiRoot && f.value.foregroundApp.packageName == "p"
  {
  }

  lemma FrameIsAccepted(f: RawFrame, payload: string, now: Time)
    requires f.uiRoot == FrameOf(payload).uiRoot && f.foregroundApp.packageName == "p" && !IsZero(now)
    ensures var r := ProcessFrame(SETTINGS, f, now);
            r.frame.Some? && Storable(SERVER, r.frame.value)
  {
    VisibleIsTrimmed("p");
    TrimmedIsFixed("p");
    assert Allowed(SETTINGS, f);
    assert !Fails(SETTINGS.oracle, f.uiRoot);
    assert SETTINGS.vision(f.screenshotRef) == Some([]);
    AcceptedParts(SETTINGS, f, now);
  }

  lemma StartHasRoom(now: Time, g: SanitizedFrame)
    requires Storable(SERVER, g)
    ensures RoomForTwo(SERVER, START.sink, now, g)
  {
    var dest := Storage.RotatedPath(SERVER.storage.path, Stamp(now));
    assert Storage.Candidate(dest, 0) !in START.sink.dir && Storage.Candidate(dest, 1) !in START.sink.dir;
  }

  /** What the sanitizer makes of it. */
  ghost function FrameAt(payload: string, now: Time): SanitizedFrame
    requires 0 < |payload| < UINT64_LIMIT && !IsZero(now)
  {
    PayloadBinds(payload, now);
    var f := Payload(SERVER, EnvelopeOf(payload, now)).value;
    FrameIsAccepted(f, payload, now);
    ProcessFrame(SETTINGS, f, now).frame.value
  }

  lemma FrameIsYielded(payload: string, now: Time)
    requires 0 < |payload| < UINT64_LIMIT && !IsZero(now)
    ensures Yields(SERVER, EnvelopeOf(payload, now), now, FrameAt(payload, now))
    ensures Storable(SERVER, FrameAt(payload, now))
  {
    PayloadBinds(payload, now);
    FrameIsAccepted(Payload(SERVER, EnvelopeOf(payload, now)).value, payload, now);
  }

  /** The eight steps: the frame with sequence 2 is written before the one with sequence 1. */
  function EightSteps(now: Time): seq<Step> {
    Overlapping(|START.admitted|, AttemptOf("x", now), AttemptOf("xx", now), now, now, now)
  }

  /** From an empty server and without one failing call, at whatever time. */
  lemma OutOfOrderExample(now: Time)
    requires !IsZero(now)
    ensures Sound(SERVER.crypto) && Initial(SERVER, START)
    ensures var base := AllRecords(SERVER.storage, START.sink);
            var t := Execute(SERVER, START, EightSteps(now));
            Inv(SERVER, base, t) && !InOrder(NewFrames(SERVER, base, t))
  {
    AttemptIsAdmissible("x", now);
    AttemptIsAdmissible("xx", now);
    FrameIsYielded("x", now);
    FrameIsYielded("xx", now);
    StartHasRoom(now, FrameAt("xx", now));
    InitialInv(SERVER, START);
    InversionFollows(SERVER, AllRecords(SERVER.storage, START.sink), START, AttemptOf("x", now), AttemptOf("xx", now),
                     now, now, now, FrameAt("x", now), FrameAt("xx", now));
  }
}
