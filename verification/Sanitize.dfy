/**
 What sanitizing a UI tree means, node by node, and the report that goes with it
 (server/internal/sanitize/sanitize.go).  Patterns, entity recognition and hashing are
 parameters.
 */
module Sanitize {
  import opened Text
  import opened Trajectory

  /**
   `matches(rule, text)`: the named pattern matches.  `ner(text)`: the number of entities
   found, or nothing when the recognizer fails.
   */
  datatype Oracle = Oracle(
    matches: (string, string) -> bool,
    ner: string -> Option<nat>,
    sha256Hex: string -> string)

  const PATTERNS: seq<string> := [
    "regex_email", "regex_phone", "regex_ssn", "regex_payment_card", "regex_address",
    "regex_token", "regex_long_numeric_identifier"]

  datatype Field = TextField | DescriptionField

  datatype Outcome = Absent | MatchedPattern | RecognizerFailed | FoundEntities | Clean

  function RawOf(n: RawNode, f: Field): string {
    match f
    case TextField => n.rawText
    case DescriptionField => n.rawContentDescription
  }

  predicate HasPii(o: Oracle, raw: string) {
    exists rule :: rule in PATTERNS && o.matches(rule, raw)
  }

  function OutcomeOf(o: Oracle, raw: string): Outcome {
    if raw == "" then Absent
    else if HasPii(o, raw) then MatchedPattern
    else if o.ner(raw).None? then RecognizerFailed
    else if o.ner(raw).value > 0 then FoundEntities
    else Clean
  }

  predicate IsRedacted(o: Oracle, raw: string) {
    OutcomeOf(o, raw) in {MatchedPattern, FoundEntities}
  }

  function HashOf(o: Oracle, raw: string): string {
    if OutcomeOf(o, raw) == Clean then o.sha256Hex(raw) else ""
  }

  function StatusOf(o: Oracle, raw: string): RedactionStatus {
    match OutcomeOf(o, raw)
    case Absent => NotPresent
    case Clean => Hashed
    case _ => Redacted
  }

  // ----- the tree -----

  function Sanitized(o: Oracle, n: RawNode): SanitizedNode
    decreases n, 1
  {
    SanitizedNode(
      n.attributes,
      HashOf(o, n.rawText), StatusOf(o, n.rawText),
      HashOf(o, n.rawContentDescription), StatusOf(o, n.rawContentDescription),
      SanitizedAll(o, n.children))
  }

  function SanitizedAll(o: Oracle, ns: seq<RawNode>): (r: seq<SanitizedNode>)
    ensures |r| == |ns|
    decreases ns, 0
  {
    if ns == [] then [] else [Sanitized(o, ns[0])] + SanitizedAll(o, ns[1..])
  }

  /** The recognizer fails on some text of the tree. */
  predicate Fails(o: Oracle, n: RawNode)
    decreases n, 1
  {
    || OutcomeOf(o, n.rawText) == RecognizerFailed
    || OutcomeOf(o, n.rawContentDescription) == RecognizerFailed
    || AnyFails(o, n.children)
  }

  predicate AnyFails(o: Oracle, ns: seq<RawNode>)
    decreases ns, 0
  {
    ns != [] && (Fails(o, ns[0]) || AnyFails(o, ns[1..]))
  }

  // ----- what the traversal accumulates -----

  datatype Effects = Effects(rules: set<string>, fields: seq<string>, reasons: seq<string>)

  const NO_EFFECT := Effects({}, [], [])

  function Plus(a: Effects, b: Effects): Effects {
    Effects(a.rules + b.rules, a.fields + b.fields, a.reasons + b.reasons)
  }

  lemma PlusAssociates(a: Effects, b: Effects, c: Effects)
    ensures Plus(Plus(a, b), c) == Plus(a, Plus(b, c))
  {
  }

  /** The patterns of a list that match, in list order. */
  function Matching(o: Oracle, patterns: seq<string>, raw: string): seq<string> {
    if patterns == [] then []
    else
      var before := Matching(o, patterns[..|patterns| - 1], raw);
      var rule := patterns[|patterns| - 1];
      if o.matches(rule, raw) then before + [rule] else before
  }

  /** A field redacted by a pattern is appended to the dropped fields twice. */
  function FieldEffects(o: Oracle, raw: string, field: string): Effects {
    match OutcomeOf(o, raw)
    case Absent => NO_EFFECT
    case MatchedPattern =>
      var rules := Matching(o, PATTERNS, raw);
      Effects({"structural_attrition"} + Elems(rules), [field, field], rules + ["redacted_sensitive_text"])
    case FoundEntities =>
      Effects({"structural_attrition", "local_ner_redaction"}, [field], ["local_ner_entity_detected"])
    case _ => Effects({"structural_attrition"}, [], [])
  }

  function FieldSuffix(f: Field): string {
    match f
    case TextField => ".pre_storage_text"
    case DescriptionField => ".pre_storage_content_description"
  }

  const CHILDREN := ".children["

  function Segment(i: nat): string {
    CHILDREN + (Dec(i) + "]")
  }

  function ChildPath(path: string, i: nat): string {
    path + Segment(i)
  }

  function NodeEffects(o: Oracle, n: RawNode, path: string): Effects
    decreases n, 1
  {
    Plus(OwnEffects(o, n, path), ChildrenEffects(o, n.children, path, 0))
  }

  function OwnEffects(o: Oracle, n: RawNode, path: string): Effects {
    Plus(FieldEffects(o, n.rawText, path + FieldSuffix(TextField)),
         FieldEffects(o, n.rawContentDescription, path + FieldSuffix(DescriptionField)))
  }

  function ChildrenEffects(o: Oracle, ns: seq<RawNode>, path: string, i: nat): Effects
    decreases ns, 0
  {
    if ns == [] then NO_EFFECT
    else Plus(NodeEffects(o, ns[0], ChildPath(path, i)), ChildrenEffects(o, ns[1..], path, i + 1))
  }

  // ----- unique -----

  function TrimAll(values: seq<string>): (r: seq<string>)
    ensures |r| == |values|
  {
    seq(|values|, i requires 0 <= i < |values| => TrimSpace(values[i]))
  }

  /** The non-empty values, each at its first place. */
  function Dedup(values: seq<string>): seq<string> {
    if values == [] then []
    else
      var before := Dedup(values[..|values| - 1]);
      var value := values[|values| - 1];
      if value == "" || value in before then before else before + [value]
  }

  function Unique(values: seq<string>): seq<string> {
    Sort(Dedup(TrimAll(values)))
  }

  function TrimmedSet(values: seq<string>): set<string> {
    Elems(TrimAll(values)) - {""}
  }

  lemma TrimmedSetSnoc(values: seq<string>, v: string)
    ensures TrimAll(values + [v]) == TrimAll(values) + [TrimSpace(v)]
    ensures TrimmedSet(values + [v]) == TrimmedSet(values) + if TrimSpace(v) == "" then {} else {TrimSpace(v)}
  {
    var value := TrimSpace(v);
    assert TrimAll(values + [v]) == TrimAll(values) + [value];
    assert Elems(TrimAll(values) + [value]) == Elems(TrimAll(values)) + {value};
  }

  lemma DedupSnoc(values: seq<string>, value: string)
    ensures var before := Dedup(values);
            Dedup(values + [value]) == if value == "" || value in before then before else before + [value]
  {
    assert (values + [value])[..|values|] == values;
  }

  lemma {:induction false} DedupLists(values: seq<string>)
    ensures Distinct(Dedup(values)) && Elems(Dedup(values)) == Elems(values) - {""}
  {
    if values != [] {
      var k := |values| - 1;
      var before := Dedup(values[..k]);
      DedupLists(values[..k]);
      assert values == values[..k] + [values[k]];
      assert Elems(values) == Elems(values[..k]) + {values[k]};
      assert Elems(before + [values[k]]) == Elems(before) + {values[k]};
    }
  }

  /** unique returns the increasing listing of the trimmed non-empty values. */
  lemma UniqueLists(values: seq<string>)
    ensures Lists(Unique(values), TrimmedSet(values))
  {
    DedupLists(TrimAll(values));
    SortSorts(Dedup(TrimAll(values)));
  }

  lemma TrimAllMember(values: seq<string>, v: string)
    ensures v in TrimAll(values) <==> exists x :: x in values && TrimSpace(x) == v
  {
    var r := TrimAll(values);
    if v in r {
      var i :| 0 <= i < |r| && r[i] == v;
      assert values[i] in values && TrimSpace(values[i]) == v;
    }
    if x :| x in values && TrimSpace(x) == v {
      var i :| 0 <= i < |values| && values[i] == x;
      assert r[i] == v;
    }
  }

  lemma {:induction false} TrimmedSetGrows(a: seq<string>, b: seq<string>)
    requires Elems(a) <= Elems(b)
    ensures TrimmedSet(a) <= TrimmedSet(b)
  {
    forall v | v in TrimmedSet(a) ensures v in TrimmedSet(b) {
      TrimAllMember(a, v);
      TrimAllMember(b, v);
      var x :| x in a && TrimSpace(x) == v;
      assert x in Elems(b);
    }
  }

  /** Order and repetition do not matter. */
  lemma UniqueInsensitive(a: seq<string>, b: seq<string>)
    requires Elems(a) == Elems(b)
    ensures Unique(a) == Unique(b)
  {
    UniqueLists(a);
    UniqueLists(b);
    TrimmedSetGrows(a, b);
    TrimmedSetGrows(b, a);
    ListingUnique(Unique(a), Unique(b));
  }

  /** Values that are trimmed already are listed as they are. */
  lemma TrimmedSetFixed(values: seq<string>)
    requires forall v :: v in values ==> v != "" && TrimSpace(v) == v
    ensures TrimmedSet(values) == Elems(values)
  {
    assert TrimAll(values) == values;
  }

  lemma UniqueSingle(s: string)
    requires Trimmed(s) && s != ""
    ensures Unique([s]) == [s]
  {
    TrimmedIsFixed(s);
    assert TrimAll([s]) == [s];
    DedupSnoc([], s);
    assert [] + [s] == [s];
  }

  lemma UniqueIdempotent(values: seq<string>)
    ensures Unique(Unique(values)) == Unique(values)
  {
    var u := Unique(values);
    UniqueLists(values);
    UniqueLists(u);
    forall v | v in u ensures v != "" && TrimSpace(v) == v {
      assert v in Elems(u);
      TrimAllMember(values, v);
      var x :| x in values && TrimSpace(x) == v;
      TrimSpaceTrims(x);
      TrimmedIsFixed(v);
    }
    TrimmedSetFixed(u);
    ListingUnique(Unique(u), u);
  }

  /** The increasing listing of a set of rules. */
  ghost function Listing(S: set<string>): (r: seq<string>)
    ensures Lists(r, S)
  {
    if S == {} then []
    else
      var x :| x in S;
      var rest := Listing(S - {x});
      assert x !in rest by { assert x !in Elems(rest); }
      InsertKeepsOrder(x, rest);
      Insert(x, rest)
  }
}
