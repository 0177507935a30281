/** The two guards side by side. */
module GuardRefinement {
  import opened Replay
  import Memory = MemoryGuard
  import Sqlite = SqliteGuard

  /** The memory guard does not accept call k at a sequence that SQLite cannot hold. */
  predicate FitsColumn(limit: int, calls: seq<Call>, k: nat)
    requires k < |calls|
  {
    Memory.Answers(limit, calls)[k] == Accepted ==> calls[k].sequence <= Sqlite.MAX_INTEGER
  }

  /**
   Call k is answered alike until the limit is hit; after that the memory guard accepts
   nothing and calls a replay only what SQLite calls a replay.
   */
  predicate GuardsAgreeAt(limit: int, calls: seq<Call>, k: nat)
    requires k < |calls|
  {
    Agreement(Memory.EffectiveLimit(limit),
              |Memory.Lookup(Memory.Run(limit, calls[..k]), calls[k].device).seenFrames|,
              Memory.Answers(limit, calls)[k], Sqlite.Answers(calls)[k])
  }

  lemma CallOfLogs(limit: int, calls: seq<Call>, k: nat)
    requires k < |calls|
    ensures var bound := Memory.EffectiveLimit(limit);
            && (GuardsAgreeAt(limit, calls, k) <==> AgreeAt(bound, Sqlite.MAX_INTEGER, calls, k))
            && (FitsColumn(limit, calls, k) <==> FitsAt(bound, Sqlite.MAX_INTEGER, calls, k))
  {
    Memory.RunMirrors(limit, calls);
    Sqlite.RunMirrors(calls);
    Memory.RunInvariant(limit, calls[..k], calls[k].device);
    AnswerAt(PerDevice(Memory.EffectiveLimit(limit)), calls, k);
    AnswerAt(Sqlite.BOUNDS, calls, k);
  }

  /** The memory guard refines the durable one on exactly the histories that fit the column. */
  lemma RefinementExactly(limit: int, calls: seq<Call>)
    ensures (forall k: nat :: k < |calls| ==> GuardsAgreeAt(limit, calls, k)) <==>
            (forall k: nat :: k < |calls| ==> FitsColumn(limit, calls, k))
  {
    var bound := Memory.EffectiveLimit(limit);
    forall k: nat | k < |calls|
      ensures GuardsAgreeAt(limit, calls, k) <==> AgreeAt(bound, Sqlite.MAX_INTEGER, calls, k)
      ensures FitsColumn(limit, calls, k) <==> FitsAt(bound, Sqlite.MAX_INTEGER, calls, k)
    {
      CallOfLogs(limit, calls, k);
    }
    AgreementExactly(bound, Sqlite.MAX_INTEGER, calls, |calls|);
  }

  /**
   On those histories, device by device, what the memory guard accepted is what SQLite
   accepted, cut off at the limit.
   */
  lemma MemoryRefinesSqlite(limit: int, calls: seq<Call>, d: string)
    requires forall k: nat :: k < |calls| ==> FitsColumn(limit, calls, k)
    ensures var bound := Memory.EffectiveLimit(limit);
            var memory := LogOf(PerDevice(bound), calls);
            var durable := LogOf(Sqlite.BOUNDS, calls);
            && Memory.Mirrors(Memory.Run(limit, calls), memory)
            && Sqlite.Mirrors(Sqlite.Run(Sqlite.EMPTY, Sqlite.Calls(calls)), durable)
            && Of(memory, d) == Of(durable, d)[..Min(bound, |Of(durable, d)|)]
  {
    var bound := Memory.EffectiveLimit(limit);
    Memory.RunMirrors(limit, calls);
    Sqlite.RunMirrors(calls);
    forall k: nat | k < |calls| ensures FitsAt(bound, Sqlite.MAX_INTEGER, calls, k) {
      CallOfLogs(limit, calls, k);
    }
    LimitedRefinesDurable(bound, Sqlite.MAX_INTEGER, calls, |calls|, d);
    assert calls[..|calls|] == calls;
  }

  /** Neither guard lets one device's calls influence the answers to another. */
  lemma GuardsDoNotInterfere(limit: int, calls: seq<Call>, d: string)
    ensures AnswersTo(calls, Memory.Answers(limit, calls), d) == Memory.Answers(limit, Of(calls, d))
    ensures AnswersTo(calls, Sqlite.Answers(calls), d) == Sqlite.Answers(Of(calls, d))
  {
    NonInterference(PerDevice(Memory.EffectiveLimit(limit)), calls, d);
    NonInterference(Sqlite.BOUNDS, calls, d);
    Memory.RunMirrors(limit, calls);
    Memory.RunMirrors(limit, Of(calls, d));
    Sqlite.RunMirrors(calls);
    Sqlite.RunMirrors(Of(calls, d));
  }

  /** Any two interleavings of the same per-device calls get each device the same answers. */
  lemma InterleavingIrrelevant(limit: int, one: seq<Call>, two: seq<Call>, d: string)
    requires Of(one, d) == Of(two, d)
    ensures AnswersTo(one, Memory.Answers(limit, one), d) == AnswersTo(two, Memory.Answers(limit, two), d)
    ensures AnswersTo(one, Sqlite.Answers(one), d) == AnswersTo(two, Sqlite.Answers(two), d)
  {
    GuardsDoNotInterfere(limit, one, d);
    GuardsDoNotInterfere(limit, two, d);
  }
}
