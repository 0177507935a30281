/**
 Positions in the tree against the generated field paths: the tree is refined position by
 position, and the dropped-field report names exactly the redacted positions.
 */
module SanitizePaths {
  import opened Text
  import opened Trajectory
  import opened Sanitize

  type Position = seq<nat>

  // ----- position by position -----

  predicate HasNode(n: RawNode, p: Position) {
    p == [] || (p[0] < |n.children| && HasNode(n.children[p[0]], p[1..]))
  }

  function NodeAt(n: RawNode, p: Position): RawNode
    requires HasNode(n, p)
  {
    if p == [] then n else NodeAt(n.children[p[0]], p[1..])
  }

  predicate HasOutput(n: SanitizedNode, p: Position) {
    p == [] || (p[0] < |n.children| && HasOutput(n.children[p[0]], p[1..]))
  }

  function OutputAt(n: SanitizedNode, p: Position): SanitizedNode
    requires HasOutput(n, p)
  {
    if p == [] then n else OutputAt(n.children[p[0]], p[1..])
  }

  /** One field of one node: redacted iff a pattern matches or entities are found; hashed iff neither. */
  predicate FieldRefines(o: Oracle, raw: string, hash: string, status: RedactionStatus) {
    && (status == NotPresent <==> raw == "")
    && (status == Redacted <==>
          raw != "" && (HasPii(o, raw) || (o.ner(raw).Some? && o.ner(raw).value > 0)))
    && (status == Hashed <==> raw != "" && !HasPii(o, raw) && o.ner(raw) == Some(0))
    && hash == if status == Hashed then o.sha256Hex(raw) else ""
  }

  predicate NodeRefines(o: Oracle, n: RawNode, out: SanitizedNode) {
    && out.attributes == n.attributes
    && |out.children| == |n.children|
    && FieldRefines(o, n.rawText, out.textHash, out.textStatus)
    && FieldRefines(o, n.rawContentDescription, out.contentDescriptionHash, out.contentDescriptionStatus)
  }

  lemma {:induction false} SanitizedAllAt(o: Oracle, ns: seq<RawNode>, i: nat)
    requires i < |ns|
    ensures SanitizedAll(o, ns)[i] == Sanitized(o, ns[i])
  {
    if i > 0 {
      SanitizedAllAt(o, ns[1..], i - 1);
    }
  }

  lemma {:induction false} AnyFailsAt(o: Oracle, ns: seq<RawNode>)
    ensures AnyFails(o, ns) <==> exists i :: 0 <= i < |ns| && Fails(o, ns[i])
  {
    if ns != [] {
      AnyFailsAt(o, ns[1..]);
      if AnyFails(o, ns[1..]) {
        var i :| 0 <= i < |ns[1..]| && Fails(o, ns[1..][i]);
        assert Fails(o, ns[i + 1]);
      }
      if i :| 0 <= i < |ns| && Fails(o, ns[i]) {
        if i > 0 {
          assert ns[1..][i - 1] == ns[i];
        }
      }
    }
  }

  /** Same shape, and at every position the output is the refinement of the input node there. */
  lemma {:induction false} TreeRefines(o: Oracle, n: RawNode, p: Position)
    requires !Fails(o, n)
    ensures HasOutput(Sanitized(o, n), p) <==> HasNode(n, p)
    ensures HasNode(n, p) ==> NodeRefines(o, NodeAt(n, p), OutputAt(Sanitized(o, n), p))
    decreases p
  {
    if p != [] && p[0] < |n.children| {
      SanitizedAllAt(o, n.children, p[0]);
      AnyFailsAt(o, n.children);
      TreeRefines(o, n.children[p[0]], p[1..]);
    }
  }

  predicate FailsAt(o: Oracle, n: RawNode, p: Position, f: Field) {
    HasNode(n, p) && OutcomeOf(o, RawOf(NodeAt(n, p), f)) == RecognizerFailed
  }

  /** Sanitizing a tree fails exactly when the recognizer fails on some text at some depth. */
  lemma {:induction false} FailsSomewhere(o: Oracle, n: RawNode)
    ensures Fails(o, n) <==> exists p, f :: FailsAt(o, n, p, f)
    decreases n
  {
    AnyFailsAt(o, n.children);
    if Fails(o, n) {
      if OutcomeOf(o, n.rawText) == RecognizerFailed {
        assert FailsAt(o, n, [], TextField);
      } else if OutcomeOf(o, n.rawContentDescription) == RecognizerFailed {
        assert FailsAt(o, n, [], DescriptionField);
      } else {
        var i :| 0 <= i < |n.children| && Fails(o, n.children[i]);
        FailsSomewhere(o, n.children[i]);
        var p, f :| FailsAt(o, n.children[i], p, f);
        var q := [i] + p;
        assert q[1..] == p;
        assert FailsAt(o, n, q, f);
      }
    }
    if p, f :| FailsAt(o, n, p, f) {
      if p != [] {
        FailsSomewhere(o, n.children[p[0]]);
        assert FailsAt(o, n.children[p[0]], p[1..], f);
      }
    }
  }

  // ----- paths are injective -----

  function Tail(p: Position, f: Field): string {
    if p == [] then FieldSuffix(f) else Segment(p[0]) + Tail(p[1..], f)
  }

  function NodePath(path: string, p: Position): string
    decreases p
  {
    if p == [] then path else NodePath(ChildPath(path, p[0]), p[1..])
  }

  /** The path the traversal generates for a field of the node at p. */
  function Render(path: string, p: Position, f: Field): string {
    NodePath(path, p) + FieldSuffix(f)
  }

  lemma {:induction false} RenderIsTail(path: string, p: Position, f: Field)
    ensures Render(path, p, f) == path + Tail(p, f)
    decreases p
  {
    if p != [] {
      RenderIsTail(ChildPath(path, p[0]), p[1..], f);
      ConcatAssociates(path, Segment(p[0]), Tail(p[1..], f));
    }
  }

  lemma TailStart(p: Position, f: Field)
    ensures |Tail(p, f)| > 1
    ensures Tail(p, f)[1] == if p == [] then 'p' else 'c'
  {
  }

  lemma TailOfChild(p: Position, f: Field)
    requires p != []
    ensures CHILDREN <= Tail(p, f)
    ensures Tail(p, f)[|CHILDREN|..] == Dec(p[0]) + [']'] + Tail(p[1..], f)
    ensures ']' !in Dec(p[0])
  {
    ConcatAssociates(CHILDREN, Dec(p[0]) + [']'], Tail(p[1..], f));
    PrefixDrops(CHILDREN, Dec(p[0]) + [']'] + Tail(p[1..], f));
    assert forall i :: 0 <= i < |Dec(p[0])| ==> IsDigit(Dec(p[0])[i]);
  }

  lemma {:induction false} TailInjective(p: Position, f: Field, q: Position, g: Field)
    requires Tail(p, f) == Tail(q, g)
    ensures p == q && f == g
  {
    TailStart(p, f);
    TailStart(q, g);
    if p == [] {
      assert |FieldSuffix(TextField)| != |FieldSuffix(DescriptionField)|;
    } else {
      TailOfChild(p, f);
      TailOfChild(q, g);
      CutUnique(Dec(p[0]), Tail(p[1..], f), Dec(q[0]), Tail(q[1..], g), ']');
      DecInjective(p[0], q[0]);
      TailInjective(p[1..], f, q[1..], g);
      assert p == [p[0]] + p[1..] && q == [q[0]] + q[1..];
    }
  }

  /** Different positions or fields never share a path. */
  lemma RenderInjective(path: string, p: Position, f: Field, q: Position, g: Field)
    requires Render(path, p, f) == Render(path, q, g)
    ensures p == q && f == g
  {
    RenderIsTail(path, p, f);
    RenderIsTail(path, q, g);
    PrefixDrops(path, Tail(p, f));
    PrefixDrops(path, Tail(q, g));
    TailInjective(p, f, q, g);
  }

  // ----- the redacted positions, each once -----

  datatype Spot = Spot(position: Position, field: Field)

  predicate RedactedAt(o: Oracle, n: RawNode, x: Spot) {
    HasNode(n, x.position) && IsRedacted(o, RawOf(NodeAt(n, x.position), x.field))
  }

  function OwnSpots(o: Oracle, n: RawNode): seq<Spot> {
    (if IsRedacted(o, n.rawText) then [Spot([], TextField)] else []) +
    (if IsRedacted(o, n.rawContentDescription) then [Spot([], DescriptionField)] else [])
  }

  function Below(i: nat, spots: seq<Spot>): (r: seq<Spot>)
    ensures |r| == |spots|
  {
    seq(|spots|, k requires 0 <= k < |spots| => Spot([i] + spots[k].position, spots[k].field))
  }

  function Spots(o: Oracle, n: RawNode): seq<Spot>
    decreases n, 1
  {
    OwnSpots(o, n) + SpotsOf(o, n.children, 0)
  }

  function SpotsOf(o: Oracle, ns: seq<RawNode>, i: nat): seq<Spot>
    decreases ns, 0
  {
    if ns == [] then [] else Below(i, Spots(o, ns[0])) + SpotsOf(o, ns[1..], i + 1)
  }

  /** The number of redacted fields in the tree. */
  function CountRedacted(o: Oracle, n: RawNode): nat
    decreases n, 1
  {
    (if IsRedacted(o, n.rawText) then 1 else 0) +
    (if IsRedacted(o, n.rawContentDescription) then 1 else 0) +
    CountAll(o, n.children)
  }

  function CountAll(o: Oracle, ns: seq<RawNode>): nat
    decreases ns, 0
  {
    if ns == [] then 0 else CountRedacted(o, ns[0]) + CountAll(o, ns[1..])
  }

  lemma {:induction false} SpotsCount(o: Oracle, n: RawNode)
    ensures |Spots(o, n)| == CountRedacted(o, n)
    decreases n, 1
  {
    SpotsOfCount(o, n.children, 0);
  }

  lemma {:induction false} SpotsOfCount(o: Oracle, ns: seq<RawNode>, i: nat)
    ensures |SpotsOf(o, ns, i)| == CountAll(o, ns)
    decreases ns, 0
  {
    if ns != [] {
      SpotsCount(o, ns[0]);
      SpotsOfCount(o, ns[1..], i + 1);
    }
  }

  lemma BelowMember(i: nat, spots: seq<Spot>, x: Spot)
    ensures x in Below(i, spots) <==>
              x.position != [] && x.position[0] == i && Spot(x.position[1..], x.field) in spots
  {
    var r := Below(i, spots);
    if x in r {
      var k :| 0 <= k < |r| && r[k] == x;
      assert x.position[1..] == spots[k].position;
      assert Spot(x.position[1..], x.field) == spots[k];
    }
    if x.position != [] && x.position[0] == i && Spot(x.position[1..], x.field) in spots {
      var k :| 0 <= k < |spots| && spots[k] == Spot(x.position[1..], x.field);
      assert [i] + x.position[1..] == x.position;
      assert r[k] == x;
    }
  }

  lemma OwnSpotsMember(o: Oracle, n: RawNode, x: Spot)
    ensures x in OwnSpots(o, n) <==> x.position == [] && IsRedacted(o, RawOf(n, x.field))
  {
  }

  /** Spots lists the redacted positions, no more and no fewer. */
  lemma {:induction false} SpotsMember(o: Oracle, n: RawNode, x: Spot)
    ensures x in Spots(o, n) <==> RedactedAt(o, n, x)
    decreases n, 1
  {
    OwnSpotsMember(o, n, x);
    SpotsOfMember(o, n.children, 0, x);
  }

  predicate RedactedBelow(o: Oracle, ns: seq<RawNode>, i: nat, x: Spot) {
    && x.position != [] && i <= x.position[0] < i + |ns|
    && RedactedAt(o, ns[x.position[0] - i], Spot(x.position[1..], x.field))
  }

  lemma {:induction false} SpotsOfMember(o: Oracle, ns: seq<RawNode>, i: nat, x: Spot)
    ensures x in SpotsOf(o, ns, i) <==> RedactedBelow(o, ns, i, x)
    decreases ns, 0
  {
    if ns != [] {
      BelowMember(i, Spots(o, ns[0]), x);
      SpotsOfMember(o, ns[1..], i + 1, x);
      if x.position != [] {
        SpotsMember(o, ns[0], Spot(x.position[1..], x.field));
        if i < x.position[0] < i + |ns| {
          assert ns[1..][x.position[0] - (i + 1)] == ns[x.position[0] - i];
        }
      }
    }
  }

  lemma DistinctAppend<T>(a: seq<T>, b: seq<T>)
    requires Distinct(a) && Distinct(b) && forall x :: x in a ==> x !in b
    ensures Distinct(a + b)
  {
    var c := a + b;
    forall i, j | 0 <= i < j < |c| ensures c[i] != c[j] {
      if i < |a| <= j {
        assert c[i] in a && c[j] in b;
      }
    }
  }

  lemma BelowDistinct(i: nat, spots: seq<Spot>)
    requires Distinct(spots)
    ensures Distinct(Below(i, spots))
  {
    var r := Below(i, spots);
    forall j, k | 0 <= j < k < |r| ensures r[j] != r[k] {
      assert r[j].position[1..] == spots[j].position;
      assert r[k].position[1..] == spots[k].position;
    }
  }

  lemma {:induction false} SpotsDistinct(o: Oracle, n: RawNode)
    ensures Distinct(Spots(o, n))
    decreases n, 1
  {
    SpotsOfDistinct(o, n.children, 0);
    forall x | x in OwnSpots(o, n) ensures x !in SpotsOf(o, n.children, 0) {
      OwnSpotsMember(o, n, x);
      SpotsOfMember(o, n.children, 0, x);
    }
    DistinctAppend(OwnSpots(o, n), SpotsOf(o, n.children, 0));
  }

  lemma {:induction false} SpotsOfDistinct(o: Oracle, ns: seq<RawNode>, i: nat)
    ensures Distinct(SpotsOf(o, ns, i))
    decreases ns, 0
  {
    if ns != [] {
      var first := Below(i, Spots(o, ns[0]));
      SpotsDistinct(o, ns[0]);
      BelowDistinct(i, Spots(o, ns[0]));
      SpotsOfDistinct(o, ns[1..], i + 1);
      forall x | x in first ensures x !in SpotsOf(o, ns[1..], i + 1) {
        BelowMember(i, Spots(o, ns[0]), x);
        SpotsOfMember(o, ns[1..], i + 1, x);
      }
      DistinctAppend(first, SpotsOf(o, ns[1..], i + 1));
    }
  }

  // ----- the trace of dropped fields -----

  function Paths(path: string, spots: seq<Spot>): (r: seq<string>)
    ensures |r| == |spots|
  {
    seq(|spots|, k requires 0 <= k < |spots| => Render(path, spots[k].position, spots[k].field))
  }

  lemma ElemsAppend<T>(a: seq<T>, b: seq<T>)
    ensures Elems(a + b) == Elems(a) + Elems(b)
  {
  }

  lemma PathsAppend(path: string, a: seq<Spot>, b: seq<Spot>)
    ensures Paths(path, a + b) == Paths(path, a) + Paths(path, b)
  {
  }

  lemma PathsBelow(path: string, i: nat, spots: seq<Spot>)
    ensures Paths(path, Below(i, spots)) == Paths(ChildPath(path, i), spots)
  {
  }

  lemma OwnTrace(o: Oracle, n: RawNode, path: string)
    ensures Elems(OwnEffects(o, n, path).fields) == Elems(Paths(path, OwnSpots(o, n)))
  {
    var t, d := path + FieldSuffix(TextField), path + FieldSuffix(DescriptionField);
    var text := FieldEffects(o, n.rawText, t).fields;
    var description := FieldEffects(o, n.rawContentDescription, d).fields;
    assert Elems(text) == if IsRedacted(o, n.rawText) then {t} else {};
    assert Elems(description) == if IsRedacted(o, n.rawContentDescription) then {d} else {};
    ElemsAppend(text, description);
    var a := if IsRedacted(o, n.rawText) then [Spot([], TextField)] else [];
    var b := if IsRedacted(o, n.rawContentDescription) then [Spot([], DescriptionField)] else [];
    PathsAppend(path, a, b);
    assert Paths(path, a) == if IsRedacted(o, n.rawText) then [t] else [];
    assert Paths(path, b) == if IsRedacted(o, n.rawContentDescription) then [d] else [];
    ElemsAppend(Paths(path, a), Paths(path, b));
  }

  /** Despite the double append, the traversal names the redacted spots and nothing else. */
  lemma {:induction false} TraceNamesSpots(o: Oracle, n: RawNode, path: string)
    ensures Elems(NodeEffects(o, n, path).fields) == Elems(Paths(path, Spots(o, n)))
    decreases n, 1
  {
    OwnTrace(o, n, path);
    TraceNamesSpotsOf(o, n.children, path, 0);
    ElemsAppend(OwnEffects(o, n, path).fields, ChildrenEffects(o, n.children, path, 0).fields);
    PathsAppend(path, OwnSpots(o, n), SpotsOf(o, n.children, 0));
    ElemsAppend(Paths(path, OwnSpots(o, n)), Paths(path, SpotsOf(o, n.children, 0)));
  }

  lemma {:induction false} TraceNamesSpotsOf(o: Oracle, ns: seq<RawNode>, path: string, i: nat)
    ensures Elems(ChildrenEffects(o, ns, path, i).fields) == Elems(Paths(path, SpotsOf(o, ns, i)))
    decreases ns, 0
  {
    if ns != [] {
      var child := ChildPath(path, i);
      TraceNamesSpots(o, ns[0], child);
      TraceNamesSpotsOf(o, ns[1..], path, i + 1);
      ElemsAppend(NodeEffects(o, ns[0], child).fields, ChildrenEffects(o, ns[1..], path, i + 1).fields);
      PathsBelow(path, i, Spots(o, ns[0]));
      PathsAppend(path, Below(i, Spots(o, ns[0])), SpotsOf(o, ns[1..], i + 1));
      ElemsAppend(Paths(child, Spots(o, ns[0])), Paths(path, SpotsOf(o, ns[1..], i + 1)));
    }
  }

  lemma PathsDistinct(path: string, spots: seq<Spot>)
    requires Distinct(spots)
    ensures Distinct(Paths(path, spots))
  {
    var r := Paths(path, spots);
    forall i, j | 0 <= i < j < |r| ensures r[i] != r[j] {
      if r[i] == r[j] {
        RenderInjective(path, spots[i].position, spots[i].field, spots[j].position, spots[j].field);
      }
    }
  }

  // ----- the report -----

  const ROOT := "ui_root"
  const RAW_FIELDS := "pre_storage_raw_fields"

  function DroppedFields(o: Oracle, n: RawNode, rawPresent: bool): seq<string> {
    Unique(NodeEffects(o, n, ROOT).fields + if rawPresent then [RAW_FIELDS] else [])
  }

  lemma {:induction false} TailEnd(p: Position, f: Field)
    ensures Tail(p, f) != "" && '!' <= Tail(p, f)[|Tail(p, f)| - 1] <= '~'
  {
    if p != [] {
      TailEnd(p[1..], f);
    }
  }

  lemma RenderedIsTrimmed(p: Position, f: Field)
    ensures TrimSpace(Render(ROOT, p, f)) == Render(ROOT, p, f)
    ensures Render(ROOT, p, f) != "" && Render(ROOT, p, f) != RAW_FIELDS
  {
    RenderIsTail(ROOT, p, f);
    TailEnd(p, f);
    var s := Render(ROOT, p, f);
    assert s[0] == 'u' && s[|s| - 1] == Tail(p, f)[|Tail(p, f)| - 1];
    VisibleIsTrimmed(s);
    TrimmedIsFixed(s);
  }

  /** How a path is written, field by field and child by child. */
  lemma RenderedAs(path: string, i: nat, p: Position, f: Field)
    ensures Render(path, [], TextField) == path + ".pre_storage_text"
    ensures Render(path, [], DescriptionField) == path + ".pre_storage_content_description"
    ensures Render(path, [i] + p, f) == Render(path + ".children[" + Dec(i) + "]", p, f)
    ensures ROOT == "ui_root" && RAW_FIELDS == "pre_storage_raw_fields"
  {
    assert ([i] + p)[1..] == p;
    ConcatAssociates(path + ".children[", Dec(i), "]");
    ConcatAssociates(path, ".children[", Dec(i) + "]");
  }

  /** Every path named in the report, each exactly once. */
  function Named(o: Oracle, n: RawNode, rawPresent: bool): seq<string> {
    Paths(ROOT, Spots(o, n)) + if rawPresent then [RAW_FIELDS] else []
  }

  lemma NamedIsDistinct(o: Oracle, n: RawNode, rawPresent: bool)
    ensures Distinct(Named(o, n, rawPresent))
    ensures forall s :: s in Named(o, n, rawPresent) ==> s != "" && TrimSpace(s) == s
  {
    var spots := Spots(o, n);
    var paths := Paths(ROOT, spots);
    SpotsDistinct(o, n);
    PathsDistinct(ROOT, spots);
    forall s | s in paths ensures s != RAW_FIELDS && s != "" && TrimSpace(s) == s {
      var k :| 0 <= k < |paths| && paths[k] == s;
      RenderedIsTrimmed(spots[k].position, spots[k].field);
    }
    VisibleIsTrimmed(RAW_FIELDS);
    TrimmedIsFixed(RAW_FIELDS);
    DistinctAppend(paths, if rawPresent then [RAW_FIELDS] else []);
  }

  lemma DroppedListsNamed(o: Oracle, n: RawNode, rawPresent: bool)
    ensures Lists(DroppedFields(o, n, rawPresent), Elems(Named(o, n, rawPresent)))
  {
    var bit := if rawPresent then [RAW_FIELDS] else [];
    var trace := NodeEffects(o, n, ROOT).fields + bit;
    var named := Named(o, n, rawPresent);
    TraceNamesSpots(o, n, ROOT);
    ElemsAppend(NodeEffects(o, n, ROOT).fields, bit);
    ElemsAppend(Paths(ROOT, Spots(o, n)), bit);
    assert Elems(trace) == Elems(named);
    NamedIsDistinct(o, n, rawPresent);
    UniqueLists(trace);
    forall s | s in trace ensures s in named {
      assert s in Elems(trace);
    }
    TrimmedSetFixed(trace);
  }

  /**
   The dropped-field report is exact: it is strictly sorted, it names a path if and only if
   that path belongs to a redacted field of some node, plus the raw-fields marker if and only
   if raw fields came along, and its length is the number of redacted fields plus that marker.
   */
  lemma DroppedFieldsExact(o: Oracle, n: RawNode, rawPresent: bool, s: string)
    ensures var report := DroppedFields(o, n, rawPresent);
            && StrictlySorted(report)
            && |report| == CountRedacted(o, n) + (if rawPresent then 1 else 0)
            && (s in report <==>
                  || (rawPresent && s == RAW_FIELDS)
                  || exists x :: RedactedAt(o, n, x) && s == Render(ROOT, x.position, x.field))
  {
    var report := DroppedFields(o, n, rawPresent);
    var named := Named(o, n, rawPresent);
    DroppedListsNamed(o, n, rawPresent);
    NamedIsDistinct(o, n, rawPresent);
    SpotsCount(o, n);
    SortedIsDistinct(report);
    DistinctSize(report);
    DistinctSize(named);
    assert s in report <==> s in named by {
      assert s in report <==> s in Elems(report);
      assert s in named <==> s in Elems(named);
    }
    PathsMember(o, n, s);
  }

  lemma PathsMember(o: Oracle, n: RawNode, s: string)
    ensures s in Paths(ROOT, Spots(o, n)) <==>
              exists x :: RedactedAt(o, n, x) && s == Render(ROOT, x.position, x.field)
  {
    var spots := Spots(o, n);
    var paths := Paths(ROOT, spots);
    if s in paths {
      var k :| 0 <= k < |paths| && paths[k] == s;
      SpotsMember(o, n, spots[k]);
      assert RedactedAt(o, n, spots[k]) && s == Render(ROOT, spots[k].position, spots[k].field);
    }
    if x :| RedactedAt(o, n, x) && s == Render(ROOT, x.position, x.field) {
      SpotsMember(o, n, x);
      var k :| 0 <= k < |spots| && spots[k] == x;
      assert paths[k] == s;
    }
  }
}
