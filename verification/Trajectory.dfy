/** The telemetry records of server/pkg/trajectory/types.go. */
module Trajectory {
  import opened Clock

  datatype Decision = Accept | Drop | Quarantine | Undecided

  datatype RedactionStatus = NotPresent | Hashed | Redacted | Dropped

  datatype Bounds = Bounds(left: int, top: int, right: int, bottom: int)

  datatype DeviceMetadata = DeviceMetadata(
    deviceId: string, androidSdkVersion: string,
    buildFingerprintHash: string, buildMetadataRedactionStatus: string)

  datatype ForegroundApp = ForegroundApp(packageName: string, activityName: string)

  datatype IntentMetadata = IntentMetadata(
    operatorIntentId: string, intentType: string, tags: seq<string>,
    naturalLanguageHash: string, naturalLanguageRedactionStatus: string)

  datatype ActionMetadata = ActionMetadata(
    actionId: string, actionType: string, targetStableNodeId: string,
    targetBounds: Bounds, deterministic: bool, preconditions: seq<string>)

  datatype UISettleMetadata = UISettleMetadata(
    observed: bool, settleTimeoutMs: nat, elapsedMs: nat, settleStatus: string)

  datatype RedactionBox = RedactionBox(bounds: Bounds, reasonCode: string)

  datatype ScreenshotRef = ScreenshotRef(
    referenceId: string, sha256Hex: string, mediaType: string,
    redactionStatus: string, redactionBoxes: seq<RedactionBox>)

  datatype SignatureMetadata = SignatureMetadata(
    signatureAlg: string, keyId: string, payloadSha256Hex: string, verificationStatus: string)

  datatype DecisionMetadata = DecisionMetadata(
    decision: Decision, reasonCodes: seq<string>, killSwitchReason: string)

  datatype SanitizerMetadata = SanitizerMetadata(
    sanitizerVersion: string, decision: Decision, redactionRulesApplied: seq<string>,
    fieldsDropped: seq<string>, reasonCodes: seq<string>, killSwitchReason: string)

  datatype RedactionReport = RedactionReport(
    rulesApplied: seq<string>, fieldsDropped: seq<string>, reasonCodes: seq<string>)

  /** The part of a node that sanitizing copies. */
  datatype NodeAttributes = NodeAttributes(
    stableNodeId: string, bounds: Bounds, className: string, packageName: string,
    resourceIdHash: string, clickable: bool, enabled: bool, focused: bool,
    selected: bool, checkable: bool)

  datatype RawNode = RawNode(
    attributes: NodeAttributes,
    rawText: string, textHash: string, textRedactionStatus: string,
    rawContentDescription: string, contentDescriptionHash: string,
    contentDescriptionRedactionStatus: string,
    children: seq<RawNode>)

  datatype SanitizedNode = SanitizedNode(
    attributes: NodeAttributes,
    textHash: string, textStatus: RedactionStatus,
    contentDescriptionHash: string, contentDescriptionStatus: RedactionStatus,
    children: seq<SanitizedNode>)

  datatype RawFrame = RawFrame(
    protocolVersion: string, trajectoryId: string, frameId: string, sequence: nat,
    eventTimestamp: Time, device: DeviceMetadata, foregroundApp: ForegroundApp,
    uiRoot: RawNode, intent: IntentMetadata, action: ActionMetadata,
    uiSettle: UISettleMetadata, screenshotRef: ScreenshotRef,
    signature: SignatureMetadata, preStorageRaw: map<string, string>)

  datatype SanitizedFrame = SanitizedFrame(
    protocolVersion: string, trajectoryId: string, frameId: string, sequence: nat,
    eventTimestamp: Time, device: DeviceMetadata, foregroundApp: ForegroundApp,
    allowlist: DecisionMetadata, uiRoot: SanitizedNode, intent: IntentMetadata,
    action: ActionMetadata, uiSettle: UISettleMetadata, screenshotRef: ScreenshotRef,
    sanitizer: SanitizerMetadata, signature: SignatureMetadata, sanitizedAt: Time)
}
