/**
 The rules and reason codes of a report, told from the texts of the tree: which pattern
 matches where, and where entities are found.
 */
module SanitizeReport {
  import opened Text
  import opened Trajectory
  import opened Sanitize
  import opened SanitizePaths

  ghost predicate IsPattern(name: string) {
    name in {"regex_email", "regex_phone", "regex_ssn", "regex_payment_card", "regex_address",
             "regex_token", "regex_long_numeric_identifier"}
  }

  ghost predicate Matched(o: Oracle, raw: string) {
    exists name :: IsPattern(name) && o.matches(name, raw)
  }

  ghost predicate HasEntities(o: Oracle, raw: string) {
    !Matched(o, raw) && o.ner(raw).Some? && o.ner(raw).value > 0
  }

  datatype Kind = Rules | Reasons

  /** The names that one non-empty text puts in the report. */
  ghost predicate TextGives(o: Oracle, kind: Kind, raw: string, name: string) {
    && raw != ""
    && match kind {
         case Rules =>
           || name == "structural_attrition"
           || (IsPattern(name) && o.matches(name, raw))
           || (name == "local_ner_redaction" && HasEntities(o, raw))
         case Reasons =>
           || (IsPattern(name) && o.matches(name, raw))
           || (name == "redacted_sensitive_text" && Matched(o, raw))
           || (name == "local_ner_entity_detected" && HasEntities(o, raw))
       }
  }

  ghost predicate GivenAt(o: Oracle, kind: Kind, n: RawNode, x: Spot, name: string) {
    HasNode(n, x.position) && TextGives(o, kind, RawOf(NodeAt(n, x.position), x.field), name)
  }

  ghost predicate Holds(e: Effects, kind: Kind, name: string) {
    match kind
    case Rules => name in e.rules
    case Reasons => name in e.reasons
  }

  // ----- one text -----

  lemma {:induction false} MatchingMember(o: Oracle, patterns: seq<string>, raw: string, name: string)
    ensures name in Matching(o, patterns, raw) <==> name in patterns && o.matches(name, raw)
  {
    if patterns != [] {
      var k := |patterns| - 1;
      MatchingMember(o, patterns[..k], raw, name);
      assert patterns == patterns[..k] + [patterns[k]];
    }
  }

  lemma PatternNames(name: string)
    ensures name in PATTERNS <==> IsPattern(name)
  {
  }

  lemma MatchedIsPii(o: Oracle, raw: string)
    ensures HasPii(o, raw) <==> Matched(o, raw)
  {
    if rule :| rule in PATTERNS && o.matches(rule, raw) {
      PatternNames(rule);
    }
    if name :| IsPattern(name) && o.matches(name, raw) {
      PatternNames(name);
    }
  }

  lemma FieldHolds(o: Oracle, raw: string, field: string, kind: Kind, name: string)
    requires OutcomeOf(o, raw) != RecognizerFailed
    ensures Holds(FieldEffects(o, raw, field), kind, name) <==> TextGives(o, kind, raw, name)
  {
    MatchingMember(o, PATTERNS, raw, name);
    PatternNames(name);
    MatchedIsPii(o, raw);
    var rules := Matching(o, PATTERNS, raw);
    assert name in Elems(rules) <==> name in rules;
    if OutcomeOf(o, raw) != MatchedPattern {
      assert raw == "" || !Matched(o, raw);
    }
  }

  // ----- the tree -----

  lemma PlusHolds(a: Effects, b: Effects, kind: Kind, name: string)
    ensures Holds(Plus(a, b), kind, name) <==> Holds(a, kind, name) || Holds(b, kind, name)
  {
  }

  lemma OwnHolds(o: Oracle, n: RawNode, path: string, kind: Kind, name: string)
    requires !Fails(o, n)
    ensures Holds(OwnEffects(o, n, path), kind, name) <==>
              exists f: Field :: GivenAt(o, kind, n, Spot([], f), name)
  {
    var t, d := path + FieldSuffix(TextField), path + FieldSuffix(DescriptionField);
    FieldHolds(o, n.rawText, t, kind, name);
    FieldHolds(o, n.rawContentDescription, d, kind, name);
    PlusHolds(FieldEffects(o, n.rawText, t), FieldEffects(o, n.rawContentDescription, d), kind, name);
    assert GivenAt(o, kind, n, Spot([], TextField), name) <==> TextGives(o, kind, n.rawText, name);
    assert GivenAt(o, kind, n, Spot([], DescriptionField), name) <==>
           TextGives(o, kind, n.rawContentDescription, name);
  }

  /** Some text in one of these subtrees gives the name. */
  ghost predicate GivenBelow(o: Oracle, kind: Kind, ns: seq<RawNode>, name: string) {
    exists i, x :: 0 <= i < |ns| && GivenAt(o, kind, ns[i], x, name)
  }

  lemma GivenSplits(o: Oracle, kind: Kind, n: RawNode, name: string)
    ensures (exists x :: GivenAt(o, kind, n, x, name)) <==>
              (exists f: Field :: GivenAt(o, kind, n, Spot([], f), name)) || GivenBelow(o, kind, n.children, name)
  {
    if x :| GivenAt(o, kind, n, x, name) {
      if x.position == [] {
        assert x == Spot([], x.field);
      } else {
        assert GivenAt(o, kind, n.children[x.position[0]], Spot(x.position[1..], x.field), name);
      }
    }
    if i, x :| 0 <= i < |n.children| && GivenAt(o, kind, n.children[i], x, name) {
      var q := [i] + x.position;
      assert q[1..] == x.position;
      assert GivenAt(o, kind, n, Spot(q, x.field), name);
    }
  }

  lemma BelowSplits(o: Oracle, kind: Kind, ns: seq<RawNode>, name: string)
    requires ns != []
    ensures GivenBelow(o, kind, ns, name) <==>
              (exists x :: GivenAt(o, kind, ns[0], x, name)) || GivenBelow(o, kind, ns[1..], name)
  {
    if i, x :| 0 <= i < |ns| && GivenAt(o, kind, ns[i], x, name) {
      if i > 0 {
        assert ns[1..][i - 1] == ns[i];
        assert GivenAt(o, kind, ns[1..][i - 1], x, name);
      }
    }
    if i, x :| 0 <= i < |ns[1..]| && GivenAt(o, kind, ns[1..][i], x, name) {
      assert ns[1..][i] == ns[i + 1];
      assert GivenAt(o, kind, ns[i + 1], x, name);
    }
  }

  /** The traversal gathers a name exactly if some text of the tree gives it. */
  lemma {:induction false} NodeHolds(o: Oracle, n: RawNode, path: string, kind: Kind, name: string)
    requires !Fails(o, n)
    ensures Holds(NodeEffects(o, n, path), kind, name) <==> exists x :: GivenAt(o, kind, n, x, name)
    decreases n, 1
  {
    OwnHolds(o, n, path, kind, name);
    ChildrenHold(o, n.children, path, 0, kind, name);
    PlusHolds(OwnEffects(o, n, path), ChildrenEffects(o, n.children, path, 0), kind, name);
    GivenSplits(o, kind, n, name);
  }

  lemma {:induction false} ChildrenHold(o: Oracle, ns: seq<RawNode>, path: string, i: nat, kind: Kind, name: string)
    requires !AnyFails(o, ns)
    ensures Holds(ChildrenEffects(o, ns, path, i), kind, name) <==> GivenBelow(o, kind, ns, name)
    decreases ns, 0
  {
    if ns != [] {
      var child := ChildPath(path, i);
      NodeHolds(o, ns[0], child, kind, name);
      ChildrenHold(o, ns[1..], path, i + 1, kind, name);
      PlusHolds(NodeEffects(o, ns[0], child), ChildrenEffects(o, ns[1..], path, i + 1), kind, name);
      BelowSplits(o, kind, ns, name);
    }
  }

  // ----- the listed names -----

  ghost predicate IsReportName(name: string) {
    IsPattern(name) || name in {
      "structural_attrition", "local_ner_redaction", "redacted_sensitive_text", "local_ner_entity_detected",
      "sanitized", "vision_redaction_error"}
  }

  lemma ReportNameIsTrimmed(name: string)
    requires IsReportName(name)
    ensures name != "" && TrimSpace(name) == name
  {
    VisibleIsTrimmed(name);
    TrimmedIsFixed(name);
  }

  /** unique neither drops nor adds report names. */
  lemma UniqueNames(values: seq<string>)
    requires forall name :: name in values ==> IsReportName(name)
    ensures StrictlySorted(Unique(values))
    ensures forall name :: name in Unique(values) <==> name in values
  {
    forall name | name in values ensures name != "" && TrimSpace(name) == name {
      ReportNameIsTrimmed(name);
    }
    UniqueLists(values);
    TrimmedSetFixed(values);
    forall name ensures name in Unique(values) <==> name in values {
      assert name in Unique(values) <==> name in Elems(Unique(values));
      assert name in values <==> name in Elems(values);
    }
  }

  /** The reason codes of a traversed tree with one more reason. */
  lemma ReasonsExact(o: Oracle, n: RawNode, last: string)
    requires !Fails(o, n) && IsReportName(last)
    ensures var codes := Unique(NodeEffects(o, n, ROOT).reasons + [last]);
            && StrictlySorted(codes)
            && forall name :: name in codes <==> name == last || exists x :: GivenAt(o, Reasons, n, x, name)
  {
    var e := NodeEffects(o, n, ROOT);
    var values := e.reasons + [last];
    forall name ensures name in values <==> name == last || exists x :: GivenAt(o, Reasons, n, x, name)
                ensures name in values ==> IsReportName(name) {
      NodeHolds(o, n, ROOT, Reasons, name);
    }
    UniqueNames(values);
  }

  /** The rules of a traversed tree, each listed once and in order. */
  lemma RulesExact(o: Oracle, n: RawNode)
    requires !Fails(o, n)
    ensures var rules := Unique(Listing(NodeEffects(o, n, ROOT).rules) + ["structural_attrition"]);
            && StrictlySorted(rules)
            && forall name :: name in rules <==>
                 name == "structural_attrition" || exists x :: GivenAt(o, Rules, n, x, name)
  {
    var e := NodeEffects(o, n, ROOT);
    var values := Listing(e.rules) + ["structural_attrition"];
    forall name
      ensures name in values <==> name == "structural_attrition" || exists x :: GivenAt(o, Rules, n, x, name)
      ensures name in values ==> IsReportName(name)
    {
      NodeHolds(o, n, ROOT, Rules, name);
      assert name in Listing(e.rules) <==> name in Elems(Listing(e.rules));
    }
    UniqueNames(values);
  }
}
