/**
 Pipeline.Process as a whole: what it decides, and the objects that compute it with their
 accumulators, loops and defaults.
 */
module SanitizePipeline {
  import opened Text
  import opened Clock
  import opened Trajectory
  import opened Sanitize
  import opened SanitizePaths
  import Storage

  const DEFAULT_VERSION := "sanitize-v0.1.0"
  const CONFIGURED := "configured_sensitive_package"

  const DEFAULT_SENSITIVE: map<string, string> := map[
    "com.example.bank" := "banking_app",
    "com.example.passwordmanager" := "password_manager",
    "com.example.medical" := "medical_app",
    "com.google.android.gm" := "email_app",
    "com.whatsapp" := "private_messaging_app",
    "org.signal" := "private_messaging_app"]

  type Recognizer = string -> Option<nat>
  type Planner = ScreenshotRef -> Option<seq<RedactionBox>>

  /** A pipeline with its defaults filled in. */
  datatype Settings = Settings(
    oracle: Oracle, vision: Planner,
    allowedPackages: set<string>, sensitivePackages: map<string, string>, version: string)

  /** `frame` is absent where the code returns the zero frame; `failed` is a non-nil error. */
  datatype Processed = Processed(
    frame: Option<SanitizedFrame>, report: RedactionReport, decision: Decision,
    reasonCodes: seq<string>, sanitizerVersion: string, killSwitchReason: string, failed: bool)

  const EMPTY_REPORT := RedactionReport([], [], [])

  function Refuse(version: string, report: RedactionReport, decision: Decision, reason: string,
                  killSwitch: string, failed: bool): Processed
  {
    var report' := report.(reasonCodes := Unique(report.reasonCodes + [reason]));
    Processed(None, report', decision, report'.reasonCodes, version, killSwitch, failed)
  }

  /** The report before it is made unique. */
  ghost function DraftReport(o: Oracle, frame: RawFrame): RedactionReport {
    var e := NodeEffects(o, frame.uiRoot, ROOT);
    RedactionReport(
      Listing(e.rules) + ["structural_attrition"],
      e.fields + (if frame.preStorageRaw != map[] then [RAW_FIELDS] else []),
      e.reasons)
  }

  function FinalReport(draft: RedactionReport): RedactionReport {
    RedactionReport(Unique(draft.rulesApplied), Unique(draft.fieldsDropped),
                    Unique(draft.reasonCodes + ["sanitized"]))
  }

  function FinalScreenshot(shot: ScreenshotRef, boxes: seq<RedactionBox>): ScreenshotRef {
    var s := shot.(redactionBoxes := boxes);
    if s.referenceId != "" && s.redactionStatus == "" then
      s.(redactionStatus := "metadata_only_no_raw_bytes")
    else s
  }

  function Assemble(frame: RawFrame, root: SanitizedNode, shot: ScreenshotRef,
                    report: RedactionReport, version: string, now: Time): SanitizedFrame
  {
    SanitizedFrame(
      frame.protocolVersion, frame.trajectoryId, frame.frameId, frame.sequence,
      frame.eventTimestamp, frame.device, frame.foregroundApp,
      DecisionMetadata(Accept, ["package_allowlisted"], ""),
      root, frame.intent, frame.action, frame.uiSettle, shot,
      SanitizerMetadata(version, Accept, report.rulesApplied, report.fieldsDropped,
                        report.reasonCodes, ""),
      frame.signature.(verificationStatus := "verified"),
      now)
  }

  /** What follows the traversal: the vision plan, the final report and the frame. */
  function Publish(s: Settings, frame: RawFrame, root: SanitizedNode, draft: RedactionReport, now: Time): Processed {
    match s.vision(frame.screenshotRef)
    case None => Refuse(s.version, draft, Drop, "vision_redaction_error", "", true)
    case Some(boxes) =>
      var report := FinalReport(draft);
      var shot := FinalScreenshot(frame.screenshotRef, boxes);
      var out := Assemble(frame, root, shot, report, s.version, now);
      Processed(Some(out), report, Accept, report.reasonCodes, s.version, "", false)
  }

  ghost function ProcessFrame(s: Settings, frame: RawFrame, now: Time): Processed {
    var pkg := TrimSpace(frame.foregroundApp.packageName);
    if pkg == "" then Refuse(s.version, EMPTY_REPORT, Drop, "missing_foreground_package", "", false)
    else if pkg in s.sensitivePackages then
      Refuse(s.version, EMPTY_REPORT, Quarantine, "sensitive_package", s.sensitivePackages[pkg], false)
    else if pkg !in s.allowedPackages then
      Refuse(s.version, EMPTY_REPORT, Drop, "package_not_allowlisted", "", false)
    else if Fails(s.oracle, frame.uiRoot) then
      Refuse(s.version, EMPTY_REPORT, Drop, "sanitizer_error", "", true)
    else
      Publish(s, frame, Sanitized(s.oracle, frame.uiRoot), DraftReport(s.oracle, frame), now)
  }

  // ----- what a decision means -----

  predicate Allowed(s: Settings, frame: RawFrame) {
    var pkg := TrimSpace(frame.foregroundApp.packageName);
    pkg != "" && pkg in s.allowedPackages && pkg !in s.sensitivePackages
  }

  /** Fail closed: a frame comes out if and only if everything went well. */
  lemma AcceptExactly(s: Settings, frame: RawFrame, now: Time)
    ensures var r := ProcessFrame(s, frame, now);
            && (r.decision == Accept <==>
                  && Allowed(s, frame)
                  && s.vision(frame.screenshotRef).Some?
                  && !exists p, f :: FailsAt(s.oracle, frame.uiRoot, p, f))
            && (r.frame.Some? <==> r.decision == Accept)
            && (r.failed ==> r.decision == Drop)
  {
    FailsSomewhere(s.oracle, frame.uiRoot);
  }

  /** What sanitizing copies: everything but the tree, the screenshot and the verdict. */
  predicate Copied(frame: RawFrame, out: SanitizedFrame) {
    && out.protocolVersion == frame.protocolVersion && out.trajectoryId == frame.trajectoryId
    && out.frameId == frame.frameId && out.sequence == frame.sequence
    && out.eventTimestamp == frame.eventTimestamp
    && out.device == frame.device && out.foregroundApp == frame.foregroundApp
    && out.intent == frame.intent && out.action == frame.action && out.uiSettle == frame.uiSettle
    && out.signature.signatureAlg == frame.signature.signatureAlg
    && out.signature.keyId == frame.signature.keyId
    && out.signature.payloadSha256Hex == frame.signature.payloadSha256Hex
    && out.signature.verificationStatus == "verified"
  }

  /** The planned boxes, and a status for a screenshot that is referenced without one. */
  predicate Planned(shot: ScreenshotRef, boxes: seq<RedactionBox>, out: ScreenshotRef) {
    && out.referenceId == shot.referenceId && out.sha256Hex == shot.sha256Hex && out.mediaType == shot.mediaType
    && out.redactionBoxes == boxes
    && (shot.referenceId != "" && shot.redactionStatus == "" ==>
          out.redactionStatus == "metadata_only_no_raw_bytes")
    && (shot.referenceId == "" || shot.redactionStatus != "" ==> out.redactionStatus == shot.redactionStatus)
  }

  lemma AcceptedParts(s: Settings, frame: RawFrame, now: Time)
    requires ProcessFrame(s, frame, now).decision == Accept
    ensures ProcessFrame(s, frame, now).frame.Some?
    ensures var out := ProcessFrame(s, frame, now).frame.value;
            && Copied(frame, out) && out.sanitizedAt == now
            && s.vision(frame.screenshotRef).Some?
            && Planned(frame.screenshotRef, s.vision(frame.screenshotRef).value, out.screenshotRef)
            && out.uiRoot == Sanitized(s.oracle, frame.uiRoot)
            && out.sanitizer.fieldsDropped == DroppedFields(s.oracle, frame.uiRoot, frame.preStorageRaw != map[])
            && (Storage.Safe(out) <==> s.version != "" && !IsZero(now))
  {
  }

  /**
   An accepted frame keeps what is to be kept, refines the tree at every position, reports
   exactly the redacted fields, and passes the sink's own check unless the clock reads zero.
   */
  lemma AcceptedFrame(s: Settings, frame: RawFrame, now: Time, p: Position, path: string)
    requires s.version != "" && ProcessFrame(s, frame, now).decision == Accept
    ensures var out := ProcessFrame(s, frame, now).frame.value;
            && Copied(frame, out) && out.sanitizedAt == now
            && (HasOutput(out.uiRoot, p) <==> HasNode(frame.uiRoot, p))
            && (HasNode(frame.uiRoot, p) ==>
                  NodeRefines(s.oracle, NodeAt(frame.uiRoot, p), OutputAt(out.uiRoot, p)))
            && StrictlySorted(out.sanitizer.fieldsDropped)
            && (path in out.sanitizer.fieldsDropped <==>
                  || (frame.preStorageRaw != map[] && path == RAW_FIELDS)
                  || exists x :: RedactedAt(s.oracle, frame.uiRoot, x)
                                 && path == Render(ROOT, x.position, x.field))
            && |out.sanitizer.fieldsDropped| ==
                 CountRedacted(s.oracle, frame.uiRoot) + (if frame.preStorageRaw != map[] then 1 else 0)
            && (Storage.Safe(out) <==> !IsZero(now))
  {
    AcceptedParts(s, frame, now);
    TreeRefines(s.oracle, frame.uiRoot, p);
    DroppedFieldsExact(s.oracle, frame.uiRoot, frame.preStorageRaw != map[], path);
  }

  // ----- the redactor object -----

  datatype RecognizerError = RecognizerError

  /** Slice lengths are Go ints. */
  const MAX_INT: nat := 0x7fff_ffff_ffff_ffff

  predicate GoSized(n: RawNode)
    decreases n
  {
    |n.children| <= MAX_INT && forall c :: c in n.children ==> GoSized(c)
  }

  const MIN_INT: int := -0x8000_0000_0000_0000

  /** strconvI: fills a 20-byte buffer from the back.  A negative number prints as nothing. */
  method StrconvI(n: int) returns (s: string)
    requires MIN_INT <= n <= MAX_INT
    ensures s == if n >= 0 then Dec(n) else ""
  {
    if n == 0 {
      return "0";
    }
    var buf := new char[20];
    var pos := buf.Length;
    var i := n;
    if n > 0 {
      FillStart(n);
    }
    while i > 0
      invariant 1 <= pos <= 20
      invariant n < 0 ==> i == n && pos == 20
      invariant n > 0 ==> i >= 0 && Filling(n, i, pos, buf[pos..])
    {
      ghost var tail := buf[pos..];
      FillStep(n, i, pos, tail);
      pos := pos - 1;
      buf[pos] := DigitChar(i % 10);
      assert buf[pos..] == [DigitChar(i % 10)] + tail;
      i := i / 10;
    }
    return buf[pos..];
  }

  /** The loop's state: i is still to be written, and it fits in front of pos. */
  predicate Filling(n: nat, i: nat, pos: nat, tail: string) {
    pos >= 1 && i < Pow10(pos - 1) && Printed(n, i, tail)
  }

  lemma FillStart(n: nat)
    requires 0 < n <= MAX_INT
    ensures Filling(n, n, 20, [])
  {
    TwentyDigits();
    assert Dec(n) + [] == Dec(n);
  }

  lemma FillStep(n: nat, i: nat, pos: nat, tail: string)
    requires i > 0 && Filling(n, i, pos, tail)
    ensures pos >= 2 && Filling(n, i / 10, pos - 1, [DigitChar(i % 10)] + tail)
  {
    PrintStep(n, i, tail);
    RoomStep(i, pos - 1);
  }

  /** The digits of i are still to be written in front of tail. */
  predicate Printed(n: nat, i: nat, tail: string) {
    Dec(n) == if i > 0 then Dec(i) + tail else tail
  }

  lemma PrintStep(n: nat, i: nat, tail: string)
    requires i > 0 && Printed(n, i, tail)
    ensures Printed(n, i / 10, [DigitChar(i % 10)] + tail)
  {
    if i >= 10 {
      ConcatAssociates(Dec(i / 10), [DigitChar(i % 10)], tail);
    }
  }

  lemma RoomStep(i: nat, k: nat)
    requires 0 < i < Pow10(k)
    ensures k >= 1 && i / 10 < Pow10(k - 1)
  {
  }

  lemma TwentyDigits()
    ensures Pow10(19) > MAX_INT
  {
    assert Pow10(9) == 1_000_000_000;
    assert Pow10(14) == 100_000 * Pow10(9);
    assert Pow10(19) == 100_000 * Pow10(14);
  }

  class TextRedactor {
    const oracle: Oracle
    var ruleSet: set<string>
    var fieldsDropped: seq<string>
    var reasonCodes: seq<string>

    ghost function Gathered(): Effects
      reads this
    {
      Effects(ruleSet, fieldsDropped, reasonCodes)
    }

    constructor (oracle: Oracle)
      ensures this.oracle == oracle && Gathered() == NO_EFFECT
    {
      this.oracle := oracle;
      ruleSet, fieldsDropped, reasonCodes := {}, [], [];
    }

    method HasRegexPii(raw: string, field: string) returns (matched: bool)
      modifies this
      ensures matched == HasPii(oracle, raw)
      ensures Gathered() == Plus(old(Gathered()),
                if matched then
                  var rules := Matching(oracle, PATTERNS, raw);
                  Effects(Elems(rules), [field], rules + ["redacted_sensitive_text"])
                else NO_EFFECT)
    {
      matched := false;
      for k := 0 to |PATTERNS|
        invariant matched <==> Matching(oracle, PATTERNS[..k], raw) != []
        invariant fieldsDropped == old(fieldsDropped)
        invariant reasonCodes == old(reasonCodes) + Matching(oracle, PATTERNS[..k], raw)
        invariant ruleSet == old(ruleSet) + Elems(Matching(oracle, PATTERNS[..k], raw))
      {
        var name := PATTERNS[k];
        MatchingSnoc(oracle, PATTERNS[..k], name, raw);
        assert PATTERNS[..k + 1] == PATTERNS[..k] + [name];
        if oracle.matches(name, raw) {
          ruleSet := ruleSet + {name};
          reasonCodes := reasonCodes + [name];
          matched := true;
        }
      }
      assert PATTERNS[..|PATTERNS|] == PATTERNS;
      MatchingFinds(oracle, PATTERNS, raw);
      if matched {
        reasonCodes := reasonCodes + ["redacted_sensitive_text"];
        fieldsDropped := fieldsDropped + [field];
      }
    }

    method SanitizeText(raw: string, field: string)
      returns (r: Result<(string, RedactionStatus), RecognizerError>)
      modifies this
      ensures r.Err? <==> OutcomeOf(oracle, raw) == RecognizerFailed
      ensures r.Ok? ==>
                && r.value == (HashOf(oracle, raw), StatusOf(oracle, raw))
                && Gathered() == Plus(old(Gathered()), FieldEffects(oracle, raw, field))
    {
      if raw == "" {
        return Ok(("", NotPresent));
      }
      ruleSet := ruleSet + {"structural_attrition"};
      var matched := HasRegexPii(raw, field);
      if matched {
        fieldsDropped := fieldsDropped + [field];
        return Ok(("", Redacted));
      }
      var entities := oracle.ner(raw);
      if entities.None? {
        return Err(RecognizerError);
      }
      if entities.value > 0 {
        ruleSet := ruleSet + {"local_ner_redaction"};
        reasonCodes := reasonCodes + ["local_ner_entity_detected"];
        fieldsDropped := fieldsDropped + [field];
        return Ok(("", Redacted));
      }
      return Ok((oracle.sha256Hex(raw), Hashed));
    }

    /** The recursive traversal.  On an error the accumulators are of no further use. */
    method Node(n: RawNode, path: string) returns (r: Result<SanitizedNode, RecognizerError>)
      requires GoSized(n)
      modifies this
      decreases n, 1
      ensures r.Err? <==> Fails(oracle, n)
      ensures r.Ok? ==>
                && r.value == Sanitized(oracle, n)
                && Gathered() == Plus(old(Gathered()), NodeEffects(oracle, n, path))
    {
      var text := SanitizeText(n.rawText, path + ".pre_storage_text");
      if text.Err? {
        return Err(RecognizerError);
      }
      var description := SanitizeText(n.rawContentDescription, path + ".pre_storage_content_description");
      if description.Err? {
        return Err(RecognizerError);
      }
      PlusAssociates(old(Gathered()), FieldEffects(oracle, n.rawText, path + FieldSuffix(TextField)),
                     FieldEffects(oracle, n.rawContentDescription, path + FieldSuffix(DescriptionField)));
      var children := Children(n.children, path);
      if children.Err? {
        return Err(RecognizerError);
      }
      PlusAssociates(old(Gathered()), OwnEffects(oracle, n, path),
                     ChildrenEffects(oracle, n.children, path, 0));
      return Ok(SanitizedNode(n.attributes, text.value.0, text.value.1,
                              description.value.0, description.value.1, children.value));
    }

    /** The loop over a node's children. */
    method Children(ns: seq<RawNode>, path: string) returns (r: Result<seq<SanitizedNode>, RecognizerError>)
      requires |ns| <= MAX_INT && forall c :: c in ns ==> GoSized(c)
      modifies this
      decreases ns, 0
      ensures r.Err? <==> AnyFails(oracle, ns)
      ensures r.Ok? ==>
                && r.value == SanitizedAll(oracle, ns)
                && Gathered() == Plus(old(Gathered()), ChildrenEffects(oracle, ns, path, 0))
    {
      var children: seq<SanitizedNode> := [];
      for i := 0 to |ns|
        invariant Progress(oracle, ns, path, i, old(Gathered()), Gathered(), children)
      {
        ghost var gathered := Gathered();
        var digits := StrconvI(i);
        GeneratedPath(path, i);
        var out := Node(ns[i], path + ".children[" + digits + "]");
        ProgressStep(oracle, ns, path, i, old(Gathered()), gathered, children);
        if out.Err? {
          return Err(RecognizerError);
        }
        children := children + [out.value];
      }
      return Ok(children);
    }

    /** Map iteration order is arbitrary; the result does not depend on it. */
    method Rules() returns (out: seq<string>)
      ensures Lists(out, ruleSet)
      ensures out == Listing(ruleSet)
    {
      out := [];
      var remaining := ruleSet;
      while remaining != {}
        invariant remaining <= ruleSet
        invariant Distinct(out) && Elems(out) == ruleSet - remaining
        decreases remaining
      {
        var rule :| rule in remaining;
        assert rule !in out by { assert rule !in Elems(out); }
        ghost var was := out;
        out := out + [rule];
        assert Elems(out) == Elems(was) + {rule};
        remaining := remaining - {rule};
      }
      SortSorts(out);
      out := Sort(out);
      ListingUnique(out, Listing(ruleSet));
    }
  }

  /** After i children: what is done and what is left make up the whole. */
  predicate Progress(o: Oracle, ns: seq<RawNode>, path: string, i: nat,
                     start: Effects, gathered: Effects, done: seq<SanitizedNode>)
    requires i <= |ns|
  {
    && AnyFails(o, ns) == AnyFails(o, ns[i..])
    && done + SanitizedAll(o, ns[i..]) == SanitizedAll(o, ns)
    && Plus(gathered, ChildrenEffects(o, ns[i..], path, i)) == Plus(start, ChildrenEffects(o, ns, path, 0))
  }

  lemma ProgressStep(o: Oracle, ns: seq<RawNode>, path: string, i: nat,
                     start: Effects, gathered: Effects, done: seq<SanitizedNode>)
    requires i < |ns| && Progress(o, ns, path, i, start, gathered, done)
    ensures Fails(o, ns[i]) ==> AnyFails(o, ns)
    ensures !Fails(o, ns[i]) ==>
              Progress(o, ns, path, i + 1, start,
                       Plus(gathered, NodeEffects(o, ns[i], ChildPath(path, i))),
                       done + [Sanitized(o, ns[i])])
  {
    var rest, more := ns[i..], ns[i + 1..];
    assert rest[0] == ns[i] && rest[1..] == more;
    PlusAssociates(gathered, NodeEffects(o, ns[i], ChildPath(path, i)),
                   ChildrenEffects(o, more, path, i + 1));
    SequenceAssociates(done, [Sanitized(o, ns[i])], SanitizedAll(o, more));
  }

  lemma SequenceAssociates(a: seq<SanitizedNode>, b: seq<SanitizedNode>, c: seq<SanitizedNode>)
    ensures (a + b) + c == a + (b + c)
  {
  }

  lemma MatchingSnoc(o: Oracle, patterns: seq<string>, rule: string, raw: string)
    ensures Matching(o, patterns + [rule], raw) ==
            Matching(o, patterns, raw) + if o.matches(rule, raw) then [rule] else []
  {
  }

  lemma {:induction false} MatchingFinds(o: Oracle, patterns: seq<string>, raw: string)
    ensures Matching(o, patterns, raw) != [] <==> exists rule :: rule in patterns && o.matches(rule, raw)
  {
    if patterns != [] {
      var k := |patterns| - 1;
      MatchingFinds(o, patterns[..k], raw);
      assert patterns == patterns[..k] + [patterns[k]];
    }
  }

  lemma GeneratedPath(path: string, i: nat)
    ensures path + ".children[" + Dec(i) + "]" == ChildPath(path, i)
  {
  }

  /** One value of the unique loop. */
  function Collect(out: seq<string>, value: string): seq<string> {
    if value == "" || value in out then out else out + [value]
  }

  lemma CollectSnoc(values: seq<string>, v: string)
    ensures Dedup(TrimAll(values + [v])) == Collect(Dedup(TrimAll(values)), TrimSpace(v))
  {
    TrimmedSetSnoc(values, v);
    DedupSnoc(TrimAll(values), TrimSpace(v));
  }

  method UniqueStrings(values: seq<string>) returns (out: seq<string>)
    ensures out == Unique(values)
    ensures Lists(out, TrimmedSet(values))
  {
    var seen: set<string> := {};
    out := [];
    for k := 0 to |values|
      invariant out == Dedup(TrimAll(values[..k])) && seen == Elems(out)
    {
      CollectSnoc(values[..k], values[k]);
      assert values[..k + 1] == values[..k] + [values[k]];
      var value := TrimSpace(values[k]);
      if value == "" {
        continue;
      }
      if value in seen {
        continue;
      }
      seen := seen + {value};
      out := out + [value];
    }
    assert values[..|values|] == values;
    out := Sort(out);
    UniqueLists(values);
  }

  // ----- the pipeline object -----

  const NO_ENTITIES: Recognizer := _ => Some(0)
  const NO_BOXES: Planner := _ => Some([])

  class Pipeline {
    const matches: (string, string) -> bool
    const sha256Hex: string -> string
    var allowedPackages: set<string>
    var sensitivePackages: map<string, string>
    var version: string
    var ner: Option<Recognizer>
    var vision: Option<Planner>

    /** The settings in force, with defaults where the fields are unset. */
    function InForce(): Settings
      reads this
    {
      Settings(
        Oracle(matches, if ner.Some? then ner.value else NO_ENTITIES, sha256Hex),
        if vision.Some? then vision.value else NO_BOXES,
        allowedPackages, sensitivePackages,
        if version == "" then DEFAULT_VERSION else version)
    }

    /** NewPipeline: trimmed, non-empty names; a configured name replaces a built-in reason. */
    constructor (matches: (string, string) -> bool, sha256Hex: string -> string,
                 allowed: seq<string>, sensitive: seq<string>)
      ensures this.matches == matches && this.sha256Hex == sha256Hex
      ensures version == "sanitize-v0.1.0"
      ensures ner.Some? && forall raw :: (ner.value)(raw) == Some(0)
      ensures vision.Some? && forall shot :: (vision.value)(shot) == Some([])
      ensures allowedPackages == TrimmedSet(allowed)
      ensures OverriddenBy(sensitivePackages, DEFAULT_SENSITIVE, TrimmedSet(sensitive))
    {
      this.matches, this.sha256Hex := matches, sha256Hex;
      var names := TrimmedNames(allowed);
      var reasons := Override(DEFAULT_SENSITIVE, sensitive);
      allowedPackages, sensitivePackages := names, reasons;
      version, ner, vision := DEFAULT_VERSION, Some(NO_ENTITIES), Some(NO_BOXES);
    }

    /** The traversal and the report before it is made unique. */
    method Redact(frame: RawFrame) returns (r: Result<(SanitizedNode, RedactionReport), RecognizerError>)
      requires GoSized(frame.uiRoot) && ner.Some?
      ensures r.Err? <==> Fails(InForce().oracle, frame.uiRoot)
      ensures r.Ok? ==>
                r.value == (Sanitized(InForce().oracle, frame.uiRoot), DraftReport(InForce().oracle, frame))
    {
      var redactor := new TextRedactor(Oracle(matches, ner.value, sha256Hex));
      var root := redactor.Node(frame.uiRoot, ROOT);
      if root.Err? {
        return Err(RecognizerError);
      }
      ghost var effects := NodeEffects(redactor.oracle, frame.uiRoot, ROOT);
      PlusNothing(effects);
      assert redactor.Gathered() == effects;
      var rules := redactor.Rules();
      var fields := redactor.fieldsDropped;
      if frame.preStorageRaw != map[] {
        fields := fields + [RAW_FIELDS];
      }
      assert effects.fields + [] == effects.fields;
      return Ok((root.value, RedactionReport(rules + ["structural_attrition"], fields, redactor.reasonCodes)));
    }

    method FillDefaults()
      modifies this
      ensures InForce() == old(InForce()) && version == InForce().version && version != ""
      ensures ner.Some? && vision.Some?
      ensures allowedPackages == old(allowedPackages) && sensitivePackages == old(sensitivePackages)
    {
      if version == "" {
        version := DEFAULT_VERSION;
      }
      if ner.None? {
        ner := Some(NO_ENTITIES);
      }
      if vision.None? {
        vision := Some(NO_BOXES);
      }
    }

    method Process(frame: RawFrame, now: Time) returns (r: Processed)
      requires GoSized(frame.uiRoot)
      modifies this
      ensures InForce() == old(InForce()) && version == InForce().version
      ensures ner.Some? && vision.Some?
      ensures r == ProcessFrame(old(InForce()), frame, now)
    {
      FillDefaults();
      var pkg := TrimSpace(frame.foregroundApp.packageName);
      if pkg == "" {
        return Refuse(version, EMPTY_REPORT, Drop, "missing_foreground_package", "", false);
      }
      if pkg in sensitivePackages {
        return Refuse(version, EMPTY_REPORT, Quarantine, "sensitive_package", sensitivePackages[pkg], false);
      }
      if pkg !in allowedPackages {
        return Refuse(version, EMPTY_REPORT, Drop, "package_not_allowlisted", "", false);
      }
      var redacted := Redact(frame);
      if redacted.Err? {
        return Refuse(version, EMPTY_REPORT, Drop, "sanitizer_error", "", true);
      }
      r := PublishResult(frame, redacted.value.0, redacted.value.1, now);
    }

    method PublishResult(frame: RawFrame, root: SanitizedNode, draft: RedactionReport, now: Time)
      returns (r: Processed)
      requires vision.Some? && version != ""
      ensures r == Publish(InForce(), frame, root, draft, now)
    {
      var boxes := (vision.value)(frame.screenshotRef);
      if boxes.None? {
        return Refuse(version, draft, Drop, "vision_redaction_error", "", true);
      }
      var screenshot := FinalScreenshot(frame.screenshotRef, boxes.value);
      var reasonCodes := UniqueStrings(draft.reasonCodes + ["sanitized"]);
      var rulesApplied := UniqueStrings(draft.rulesApplied);
      var fieldsDropped := UniqueStrings(draft.fieldsDropped);
      var report := RedactionReport(rulesApplied, fieldsDropped, reasonCodes);
      var out := Assemble(frame, root, screenshot, report, version, now);
      return Processed(Some(out), report, Accept, reasonCodes, version, "", false);
    }
  }

  lemma PlusNothing(e: Effects)
    ensures Plus(NO_EFFECT, e) == e
  {
  }

  method TrimmedNames(values: seq<string>) returns (names: set<string>)
    ensures names == TrimmedSet(values)
  {
    names := {};
    for k := 0 to |values|
      invariant names == TrimmedSet(values[..k])
    {
      TrimmedSetSnoc(values[..k], values[k]);
      assert values[..k + 1] == values[..k] + [values[k]];
      var name := TrimSpace(values[k]);
      if name != "" {
        names := names + {name};
      }
    }
    assert values[..|values|] == values;
  }

  /** The built-in reasons, with the configured names added or replaced. */
  predicate OverriddenBy(r: map<string, string>, defaults: map<string, string>, names: set<string>) {
    && r.Keys == defaults.Keys + names
    && forall pkg :: pkg in r ==> r[pkg] == if pkg in names then "configured_sensitive_package" else defaults[pkg]
  }

  lemma OverrideStep(r: map<string, string>, defaults: map<string, string>, values: seq<string>, v: string)
    requires OverriddenBy(r, defaults, TrimmedSet(values))
    ensures OverriddenBy(if TrimSpace(v) != "" then r[TrimSpace(v) := CONFIGURED] else r,
                         defaults, TrimmedSet(values + [v]))
  {
    TrimmedSetSnoc(values, v);
    OverrideOne(r, defaults, TrimmedSet(values), TrimSpace(v));
  }

  lemma OverrideOne(r: map<string, string>, defaults: map<string, string>, names: set<string>, name: string)
    requires OverriddenBy(r, defaults, names)
    ensures OverriddenBy(r[name := CONFIGURED], defaults, names + {name})
    ensures OverriddenBy(r, defaults, names + {})
  {
    assert names + {} == names;
  }

  method Override(defaults: map<string, string>, values: seq<string>) returns (r: map<string, string>)
    ensures OverriddenBy(r, defaults, TrimmedSet(values))
  {
    r := defaults;
    for k := 0 to |values|
      invariant OverriddenBy(r, defaults, TrimmedSet(values[..k]))
    {
      OverrideStep(r, defaults, values[..k], values[k]);
      assert values[..k + 1] == values[..k] + [values[k]];
      var name := TrimSpace(values[k]);
      if name != "" {
        r := r[name := CONFIGURED];
      }
    }
    assert values[..|values|] == values;
  }
}
