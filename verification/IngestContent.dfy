/** What a reader of the store finds: line by line, and in each frame. */
module IngestContent {
  import opened Text
  import opened Trajectory
  import opened Signing
  import opened Sanitize
  import opened SanitizePaths
  import opened SanitizePipeline
  import opened SanitizeDecisions
  import opened StorageConservation
  import opened StorageBytes
  import opened Ingest
  import opened IngestTheorems
  import Storage

  predicate AllEncode(v: Server, recs: seq<Storage.Record>) {
    forall i :: 0 <= i < |recs| ==> Encodes(v, recs[i])
  }

  /** The encodings of the records' frames. */
  function EncodedLines(v: Server, recs: seq<Storage.Record>): (lines: seq<string>)
    requires AllEncode(v, recs)
    ensures |lines| == |recs|
    ensures forall i :: 0 <= i < |recs| ==> v.encode(recs[i].frame) == Some(lines[i])
  {
    seq(|recs|, i requires 0 <= i < |recs| => v.encode(recs[i].frame).value)
  }

  lemma {:induction false} EncodedBytes(v: Server, recs: seq<Storage.Record>)
    requires AllEncode(v, recs)
    ensures Contents(recs) == Terminated(EncodedLines(v, recs))
  {
    if recs != [] {
      var k := |recs| - 1;
      EncodedBytes(v, recs[..k]);
      assert EncodedLines(v, recs)[..k] == EncodedLines(v, recs[..k]);
      assert Encodes(v, recs[k]);
    }
  }

  lemma NewRecordsEncode(v: Server, base: seq<Storage.Record>, t: State)
    requires Inv(v, base, t)
    ensures AllEncode(v, NewRecords(v, base, t))
  {
    var recs := NewRecords(v, base, t);
    forall i | 0 <= i < |recs| ensures Encodes(v, recs[i]) {
      StoredIsGenuine(v, base, t, i);
    }
  }

  /** The encoder, like json.Marshal, makes one line of a frame. */
  ghost predicate EncodesOnOneLine(v: Server) {
    forall g :: v.encode(g).Some? ==> '\n' !in v.encode(g).value
  }

  /**
   Over every interleaving, failure and crash, the lines that a reader cuts from the archives
   in rotation order and then the active file are the initial ones followed by exactly the
   encodings of the new frames.
   */
  lemma StoredLines(v: Server, s: State, steps: seq<Step>)
    requires Initial(v, s) && EncodesOnOneLine(v) && Ended(StoreText(v.storage, s.sink))
    ensures var base := AllRecords(v.storage, s.sink);
            var t := Execute(v, s, steps);
            && Inv(v, base, t)
            && AllEncode(v, NewRecords(v, base, t))
            && LinesOf(StoreText(v.storage, t.sink)) ==
                 LinesOf(StoreText(v.storage, s.sink)) + EncodedLines(v, NewRecords(v, base, t))
  {
    var base := AllRecords(v.storage, s.sink);
    var t := Execute(v, s, steps);
    InitialInv(v, s);
    RunKeeps(v, base, s, steps);
    NewRecordsEncode(v, base, t);
    StoreTextIsContents(v.storage, s.sink);
    StateLines(v, base, t);
  }

  lemma StateLines(v: Server, base: seq<Storage.Record>, t: State)
    requires Inv(v, base, t) && EncodesOnOneLine(v) && Ended(Contents(base))
    requires AllEncode(v, NewRecords(v, base, t))
    ensures LinesOf(StoreText(v.storage, t.sink)) ==
            LinesOf(Contents(base)) + EncodedLines(v, NewRecords(v, base, t))
  {
    var recs := NewRecords(v, base, t);
    assert AllRecords(v.storage, t.sink) == base + recs;
    StoreTextIsContents(v.storage, t.sink);
    ContentsAppend(base, recs);
    EncodedBytes(v, recs);
    AppendedReadBack(Contents(base), EncodedLines(v, recs));
    OneLineEach(v, recs);
  }

  lemma OneLineEach(v: Server, recs: seq<Storage.Record>)
    requires EncodesOnOneLine(v) && AllEncode(v, recs)
    ensures forall line :: line in EncodedLines(v, recs) ==> '\n' !in line
  {
    var lines := EncodedLines(v, recs);
    forall line | line in lines ensures '\n' !in line {
      var i :| 0 <= i < |lines| && lines[i] == line;
      assert v.encode(recs[i].frame) == Some(line);
    }
  }

  /**
   The tree and the report of a stored frame, told from the payload of its envelope: at every
   position the node is the refinement of the payload's, and the three lists name exactly what
   was found there.
   */
  ghost predicate Sanitizes(o: Oracle, f: RawFrame, g: SanitizedFrame, p: Position, path: string) {
    && (HasOutput(g.uiRoot, p) <==> HasNode(f.uiRoot, p))
    && (HasNode(f.uiRoot, p) ==> NodeRefines(o, NodeAt(f.uiRoot, p), OutputAt(g.uiRoot, p)))
    && (path in g.sanitizer.fieldsDropped <==>
          || (f.preStorageRaw != map[] && path == RAW_FIELDS)
          || exists x :: RedactedAt(o, f.uiRoot, x) && path == Render(ROOT, x.position, x.field))
    && CodesOf(o, f.uiRoot, g.sanitizer.reasonCodes, "sanitized")
    && RulesOf(o, f.uiRoot, g.sanitizer.redactionRulesApplied)
  }

  lemma GenuineSanitizes(v: Server, e: SignedEnvelope, g: SanitizedFrame, p: Position, path: string)
    requires Genuine(v, e, g) && v.settings.version != ""
    ensures v.decode(e.payload).Some?
    ensures Sanitizes(v.settings.oracle, v.decode(e.payload).value, g, p, path)
  {
    var f := Payload(v, e).value;
    BindKeepsPayload(e, v.decode(e.payload).value);
    AcceptedFrame(v.settings, f, g.sanitizedAt, p, path);
    AcceptedReport(v.settings, f, g.sanitizedAt);
  }

  /** Every new line holds the sanitized form of what its device signed. */
  lemma StoredIsSanitized(v: Server, base: seq<Storage.Record>, s: State, i: nat, p: Position, path: string)
    requires Inv(v, base, s) && i < |s.storedBy| && v.settings.version != ""
    ensures var e := s.admitted[s.storedBy[i]].envelope;
            && v.decode(e.payload).Some?
            && Sanitizes(v.settings.oracle, v.decode(e.payload).value, NewRecords(v, base, s)[i].frame, p, path)
  {
    StoredIsGenuine(v, base, s, i);
    GenuineSanitizes(v, s.admitted[s.storedBy[i]].envelope, NewRecords(v, base, s)[i].frame, p, path);
  }
}
