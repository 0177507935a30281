/** Every outcome of Pipeline.Process, spelled out: each refusal, and the report of an accepted frame. */
module SanitizeDecisions {
  import opened Text
  import opened Clock
  import opened Trajectory
  import opened Sanitize
  import opened SanitizePaths
  import opened SanitizePipeline
  import opened SanitizeReport

  /** Nothing comes out but one reason. */
  function Refused(version: string, decision: Decision, reason: string, killSwitch: string, failed: bool): Processed {
    Processed(None, RedactionReport([], [], [reason]), decision, [reason], version, killSwitch, failed)
  }

  lemma RefuseIsRefused(version: string, decision: Decision, reason: string, killSwitch: string, failed: bool)
    requires Trimmed(reason) && reason != ""
    ensures Refuse(version, EMPTY_REPORT, decision, reason, killSwitch, failed) ==
            Refused(version, decision, reason, killSwitch, failed)
  {
    UniqueSingle(reason);
    assert [] + [reason] == [reason];
  }

  /** The three refusals by package, each with its decision and its one reason. */
  lemma PackageRefused(s: Settings, frame: RawFrame, now: Time)
    ensures var r := ProcessFrame(s, frame, now);
            var pkg := TrimSpace(frame.foregroundApp.packageName);
            && (pkg == "" ==> r == Refused(s.version, Drop, "missing_foreground_package", "", false))
            && (pkg != "" && pkg in s.sensitivePackages ==>
                  r == Refused(s.version, Quarantine, "sensitive_package", s.sensitivePackages[pkg], false))
            && (pkg != "" && pkg !in s.sensitivePackages && pkg !in s.allowedPackages ==>
                  r == Refused(s.version, Drop, "package_not_allowlisted", "", false))
  {
    var pkg := TrimSpace(frame.foregroundApp.packageName);
    if pkg == "" {
      VisibleIsTrimmed("missing_foreground_package");
      RefuseIsRefused(s.version, Drop, "missing_foreground_package", "", false);
    } else if pkg in s.sensitivePackages {
      VisibleIsTrimmed("sensitive_package");
      RefuseIsRefused(s.version, Quarantine, "sensitive_package", s.sensitivePackages[pkg], false);
    } else {
      VisibleIsTrimmed("package_not_allowlisted");
      RefuseIsRefused(s.version, Drop, "package_not_allowlisted", "", false);
    }
  }

  /** A recognizer error at any depth drops the frame and leaves nothing but the reason. */
  lemma RecognizerErrorDrops(s: Settings, frame: RawFrame, now: Time, p: Position, f: Field)
    requires Allowed(s, frame) && FailsAt(s.oracle, frame.uiRoot, p, f)
    ensures ProcessFrame(s, frame, now) == Refused(s.version, Drop, "sanitizer_error", "", true)
  {
    FailsSomewhere(s.oracle, frame.uiRoot);
    VisibleIsTrimmed("sanitizer_error");
    RefuseIsRefused(s.version, Drop, "sanitizer_error", "", true);
  }

  /** The codes are sorted and name `last` and what the texts of the tree give. */
  ghost predicate CodesOf(o: Oracle, n: RawNode, codes: seq<string>, last: string) {
    && StrictlySorted(codes)
    && forall name :: name in codes <==> name == last || exists x :: GivenAt(o, Reasons, n, x, name)
  }

  ghost predicate RulesOf(o: Oracle, n: RawNode, rules: seq<string>) {
    forall name :: name in rules <==>
      name == "structural_attrition" || exists x :: GivenAt(o, Rules, n, x, name)
  }

  /** A failing vision plan drops the frame, and the report says what the traversal had found. */
  lemma VisionErrorExactly(s: Settings, frame: RawFrame, now: Time)
    requires Allowed(s, frame) && s.vision(frame.screenshotRef) == None
    requires forall p, f :: !FailsAt(s.oracle, frame.uiRoot, p, f)
    ensures var r := ProcessFrame(s, frame, now);
            && r.frame == None && r.decision == Drop && r.failed
            && r.sanitizerVersion == s.version && r.killSwitchReason == ""
            && r.reasonCodes == r.report.reasonCodes
            && CodesOf(s.oracle, frame.uiRoot, r.reasonCodes, "vision_redaction_error")
            && RulesOf(s.oracle, frame.uiRoot, r.report.rulesApplied)
            && FieldsOf(s.oracle, frame, r.report.fieldsDropped)
  {
    FailsSomewhere(s.oracle, frame.uiRoot);
    ReasonsExact(s.oracle, frame.uiRoot, "vision_redaction_error");
    DraftRules(s.oracle, frame.uiRoot);
    DraftFields(s.oracle, frame);
  }

  /** The paths of the redacted fields and the marker of raw fields, not yet sorted. */
  ghost predicate FieldsOf(o: Oracle, frame: RawFrame, fields: seq<string>) {
    forall path :: path in fields <==>
      || (frame.preStorageRaw != map[] && path == RAW_FIELDS)
      || exists x :: RedactedAt(o, frame.uiRoot, x) && path == Render(ROOT, x.position, x.field)
  }

  lemma DraftFields(o: Oracle, frame: RawFrame)
    ensures FieldsOf(o, frame, DraftReport(o, frame).fieldsDropped)
  {
    var traced := NodeEffects(o, frame.uiRoot, ROOT).fields;
    var marker := if frame.preStorageRaw != map[] then [RAW_FIELDS] else [];
    TraceNamesSpots(o, frame.uiRoot, ROOT);
    forall path
      ensures path in traced + marker <==>
                || (frame.preStorageRaw != map[] && path == RAW_FIELDS)
                || exists x :: RedactedAt(o, frame.uiRoot, x) && path == Render(ROOT, x.position, x.field)
    {
      PathsMember(o, frame.uiRoot, path);
      assert path in traced <==> path in Elems(traced);
      assert path in Paths(ROOT, Spots(o, frame.uiRoot)) <==> path in Elems(Paths(ROOT, Spots(o, frame.uiRoot)));
    }
  }

  lemma DraftRules(o: Oracle, n: RawNode)
    requires !Fails(o, n)
    ensures RulesOf(o, n, Listing(NodeEffects(o, n, ROOT).rules) + ["structural_attrition"])
  {
    var rules := Listing(NodeEffects(o, n, ROOT).rules);
    forall name
      ensures name in rules + ["structural_attrition"] <==>
                name == "structural_attrition" || exists x :: GivenAt(o, Rules, n, x, name)
    {
      NodeHolds(o, n, ROOT, Rules, name);
      assert name in rules <==> name in Elems(rules);
    }
  }

  lemma AcceptedLists(s: Settings, frame: RawFrame, now: Time)
    requires ProcessFrame(s, frame, now).decision == Accept
    ensures !Fails(s.oracle, frame.uiRoot)
    ensures var r := ProcessFrame(s, frame, now);
            var e := NodeEffects(s.oracle, frame.uiRoot, ROOT);
            && r.frame.Some?
            && r.report.reasonCodes == Unique(e.reasons + ["sanitized"])
            && r.report.rulesApplied == Unique(Listing(e.rules) + ["structural_attrition"])
            && var m := r.frame.value.sanitizer;
               && r.report == RedactionReport(m.redactionRulesApplied, m.fieldsDropped, m.reasonCodes)
               && r.reasonCodes == m.reasonCodes && r.killSwitchReason == m.killSwitchReason == ""
               && r.sanitizerVersion == m.sanitizerVersion == s.version && m.decision == Accept && !r.failed
               && r.frame.value.allowlist == DecisionMetadata(Accept, ["package_allowlisted"], "")
  {
  }

  /**
   The report of an accepted frame.  Reason codes and rules are sorted without repetition; a
   pattern is named in both if and only if it matches a text somewhere in the tree, the
   redaction reason if and only if some text matches, the two entity names if and only if some
   unmatched text has entities, and nothing else but "sanitized" and "structural_attrition".
   The frame, the report and the reply all carry the same lists.
   */
  lemma AcceptedReport(s: Settings, frame: RawFrame, now: Time)
    requires ProcessFrame(s, frame, now).decision == Accept
    ensures var r := ProcessFrame(s, frame, now);
            && r.frame.Some?
            && CodesOf(s.oracle, frame.uiRoot, r.reasonCodes, "sanitized")
            && StrictlySorted(r.report.rulesApplied)
            && RulesOf(s.oracle, frame.uiRoot, r.report.rulesApplied)
            && var m := r.frame.value.sanitizer;
               && r.report == RedactionReport(m.redactionRulesApplied, m.fieldsDropped, m.reasonCodes)
               && r.reasonCodes == m.reasonCodes && r.killSwitchReason == m.killSwitchReason == ""
               && r.sanitizerVersion == m.sanitizerVersion == s.version && m.decision == Accept && !r.failed
               && r.frame.value.allowlist == DecisionMetadata(Accept, ["package_allowlisted"], "")
  {
    AcceptedLists(s, frame, now);
    ReasonsExact(s.oracle, frame.uiRoot, "sanitized");
    RulesExact(s.oracle, frame.uiRoot);
  }
}
