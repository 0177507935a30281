/** What the files hold byte by byte, and what a reader of the lines gets back. */
module StorageBytes {
  import opened Text
  import opened Storage
  import opened StorageConservation

  /** The bytes of a file. */
  function Contents(rs: seq<Record>): string {
    if rs == [] then "" else Contents(rs[..|rs| - 1]) + rs[|rs| - 1].line
  }

  /** The files' bytes, one file after the other. */
  function FilesText(dir: Directory, names: seq<string>): string
    requires forall name :: name in names ==> name in dir
  {
    if names == [] then ""
    else FilesText(dir, names[..|names| - 1]) + Contents(dir[names[|names| - 1]].records)
  }

  /** The archives in rotation order, then the active file. */
  function StoreText(cfg: Config, s: Sink): string
    requires Tracked(cfg, s)
  {
    FilesText(s.dir, s.archives) + if cfg.path in s.dir then Contents(s.dir[cfg.path].records) else ""
  }

  /** File sizes are numbers of bytes. */
  lemma {:induction false} BytesCounts(rs: seq<Record>)
    ensures Bytes(rs) == |Contents(rs)|
  {
    if rs != [] {
      BytesCounts(rs[..|rs| - 1]);
    }
  }

  lemma {:induction false} ContentsAppend(a: seq<Record>, b: seq<Record>)
    ensures Contents(a + b) == Contents(a) + Contents(b)
  {
    if b == [] {
      assert a + b == a;
    } else {
      var k := |b| - 1;
      ContentsAppend(a, b[..k]);
      assert (a + b)[..|a + b| - 1] == a + b[..k];
      ConcatAssociates(Contents(a), Contents(b[..k]), b[k].line);
    }
  }

  function RecordsOf(dir: Directory, names: seq<string>): seq<seq<Record>>
    requires forall name :: name in names ==> name in dir
  {
    seq(|names|, i requires 0 <= i < |names| => dir[names[i]].records)
  }

  lemma {:induction false} FilesTextIsContents(dir: Directory, names: seq<string>)
    requires forall name :: name in names ==> name in dir
    ensures FilesText(dir, names) == Contents(Concat(RecordsOf(dir, names)))
  {
    if names != [] {
      var k := |names| - 1;
      FilesTextIsContents(dir, names[..k]);
      var files := RecordsOf(dir, names);
      assert files[..k] == RecordsOf(dir, names[..k]) && files[k] == dir[names[k]].records;
      ContentsAppend(Concat(RecordsOf(dir, names[..k])), dir[names[k]].records);
    }
  }

  lemma StoreTextIsContents(cfg: Config, s: Sink)
    requires Tracked(cfg, s)
    ensures StoreText(cfg, s) == Contents(AllRecords(cfg, s))
  {
    FilesTextIsContents(s.dir, s.archives);
    assert ArchiveFiles(s) == RecordsOf(s.dir, s.archives);
    ContentsAppend(Concat(ArchiveFiles(s)), ActiveRecords(cfg, s));
  }

  // ----- the encodings that landed -----

  /** What a call put in the store: the encoding of its frame, if the line landed. */
  function Encoding(e: Event, error: Option<WriteError>): seq<string> {
    if e.WriteEvent? && e.req.encoded.Some? && Landed(error) then [e.req.encoded.value] else []
  }

  /** The encodings that a history put in the store, in call order. */
  function Landings(cfg: Config, s: Sink, events: seq<Event>): seq<string>
    requires Valid(cfg, s)
  {
    if events == [] then []
    else
      var before := events[..|events| - 1];
      var e := events[|events| - 1];
      Landings(cfg, s, before) + Encoding(e, Next(cfg, Run(cfg, s, before), e).error)
  }

  lemma TerminatedSnoc(lines: seq<string>, more: seq<string>)
    requires |more| <= 1
    ensures Terminated(lines + more) == Terminated(lines) + Terminated(more)
  {
    if more == [] {
      assert lines + more == lines;
    } else {
      assert (lines + more)[..|lines|] == lines && more[..0] == [];
    }
  }

  lemma EventBytes(e: Event, error: Option<WriteError>)
    ensures Contents(EventRecord(e, error)) == Terminated(Encoding(e, error))
  {
    var rs := EventRecord(e, error);
    if rs != [] {
      assert rs[..0] == [] && Encoding(e, error)[..0] == [];
    }
  }

  lemma {:induction false} StoredBytes(cfg: Config, s: Sink, events: seq<Event>)
    requires Valid(cfg, s)
    ensures Contents(Stored(cfg, s, events)) == Terminated(Landings(cfg, s, events))
  {
    if events != [] {
      var before := events[..|events| - 1];
      var e := events[|events| - 1];
      var error := Next(cfg, Run(cfg, s, before), e).error;
      StoredBytes(cfg, s, before);
      EventBytes(e, error);
      ContentsAppend(Stored(cfg, s, before), EventRecord(e, error));
      TerminatedSnoc(Landings(cfg, s, before), Encoding(e, error));
    }
  }

  /**
   Read-back.  After any history the store's bytes are the initial bytes followed by each landed
   encoding and a newline, in call order; and the lines that a reader cuts from them are the
   initial ones followed by exactly those encodings, if and only if no encoding holds a newline.
   */
  lemma StoreReadsBack(cfg: Config, s: Sink, events: seq<Event>)
    requires Valid(cfg, s) && Tracked(cfg, s)
    ensures var t := Run(cfg, s, events);
            var landed := Landings(cfg, s, events);
            && Tracked(cfg, t)
            && StoreText(cfg, t) == StoreText(cfg, s) + Terminated(landed)
            && (Ended(StoreText(cfg, s)) ==>
                  (LinesOf(StoreText(cfg, t)) == LinesOf(StoreText(cfg, s)) + landed <==>
                   forall line :: line in landed ==> '\n' !in line))
  {
    var t := Run(cfg, s, events);
    Conservation(cfg, s, events);
    StoreTextIsContents(cfg, s);
    StoreTextIsContents(cfg, t);
    StoredBytes(cfg, s, events);
    ContentsAppend(AllRecords(cfg, s), Stored(cfg, s, events));
    if Ended(StoreText(cfg, s)) {
      AppendedReadBack(StoreText(cfg, s), Landings(cfg, s, events));
    }
  }
}
