/** The bounded in-memory guard of server/internal/auth/auth.go. */
module MemoryGuard {
  import opened Replay

  const MAX_MEMORY_SEEN_FRAMES: nat := 100_000

  datatype ReplayState = ReplayState(maxSequence: nat, seenFrames: set<string>)

  type Devices = map<string, ReplayState>

  const NEW_DEVICE := ReplayState(0, {})

  /** What is known of a device; one that was never seen is like a new one. */
  function Lookup(m: Devices, d: string): ReplayState {
    if d in m then m[d] else NEW_DEVICE
  }

  function EffectiveLimit(limit: int): nat {
    if limit <= 0 then MAX_MEMORY_SEEN_FRAMES else limit
  }

  function Step(limit: int, m: Devices, c: Call): (Devices, Answer) {
    if IsMalformed(c) then (m, Malformed)
    else
      var st := Lookup(m, c.device);
      var m' := m[c.device := st];
      if c.frame in st.seenFrames || c.sequence <= st.maxSequence then (m', Replayed)
      else if |st.seenFrames| >= EffectiveLimit(limit) then (m', Full)
      else (m[c.device := ReplayState(c.sequence, st.seenFrames + {c.frame})], Accepted)
  }

  class MemoryReplayGuard {
    var devices: Devices
    var maxSeenFrames: int

    constructor ()
      ensures devices == map[] && maxSeenFrames == MAX_MEMORY_SEEN_FRAMES
    {
      devices, maxSeenFrames := map[], MAX_MEMORY_SEEN_FRAMES;
    }

    method CheckAndRecord(deviceId: string, frameId: string, sequence: nat) returns (answer: Answer)
      modifies this`devices
      ensures (devices, answer) == Step(maxSeenFrames, old(devices), Call(deviceId, frameId, sequence))
    {
      if deviceId == "" || frameId == "" {
        return Malformed;
      }
      if deviceId !in devices {
        devices := devices[deviceId := ReplayState(0, {})];
      }
      var state := devices[deviceId];
      assert devices == old(devices)[deviceId := state];
      if frameId in state.seenFrames {
        return Replayed;
      }
      if sequence <= state.maxSequence {
        return Replayed;
      }
      var limit := maxSeenFrames;
      if limit <= 0 {
        limit := MAX_MEMORY_SEEN_FRAMES;
      }
      if |state.seenFrames| >= limit {
        return Full;
      }
      state := state.(seenFrames := state.seenFrames + {frameId});
      state := state.(maxSequence := sequence);
      devices := devices[deviceId := state];
      assert devices == old(devices)[deviceId := state];
      return Accepted;
    }
  }

  function Run(limit: int, calls: seq<Call>): Devices {
    if calls == [] then map[]
    else Step(limit, Run(limit, calls[..|calls| - 1]), calls[|calls| - 1]).0
  }

  function Answers(limit: int, calls: seq<Call>): (r: seq<Answer>)
    ensures |r| == |calls|
  {
    if calls == [] then []
    else
      var before := calls[..|calls| - 1];
      Answers(limit, before) + [Step(limit, Run(limit, before), calls[|calls| - 1]).1]
  }

  // ----- the guard does what the log says -----

  predicate MirrorsDevice(st: ReplayState, own: Log) {
    st.seenFrames == Frames(own) && st.maxSequence == LastSequence(own)
  }

  ghost predicate Mirrors(m: Devices, log: Log) {
    forall d :: MirrorsDevice(Lookup(m, d), Of(log, d))
  }

  lemma StepAnswers(limit: int, m: Devices, log: Log, c: Call)
    requires MirrorsDevice(Lookup(m, c.device), Of(log, c.device)) && Rising(Of(log, c.device))
    ensures Step(limit, m, c).1 == AnswerOf(PerDevice(EffectiveLimit(limit)), log, c)
  {
    StaleByLast(Of(log, c.device), c);
    FramesCount(Of(log, c.device));
  }

  /** What a call leaves behind for each device. */
  lemma StepLooksUp(limit: int, m: Devices, c: Call, d: string)
    ensures Lookup(Step(limit, m, c).0, d) ==
              if d == c.device && Step(limit, m, c).1 == Accepted
              then ReplayState(c.sequence, Lookup(m, d).seenFrames + {c.frame})
              else Lookup(m, d)
  {
  }

  lemma MirrorsSnoc(st: ReplayState, own: Log, c: Call)
    requires MirrorsDevice(st, own)
    ensures MirrorsDevice(ReplayState(c.sequence, st.seenFrames + {c.frame}), own + [c])
  {
    FramesSnoc(own, c);
    assert LastSequence(own + [c]) == c.sequence;
  }

  lemma StepMirrorsDevice(limit: int, m: Devices, log: Log, log': Log, c: Call, d: string)
    requires MirrorsDevice(Lookup(m, d), Of(log, d))
    requires log' == if Step(limit, m, c).1 == Accepted then log + [c] else log
    ensures MirrorsDevice(Lookup(Step(limit, m, c).0, d), Of(log', d))
  {
    OfSnoc(log, c, d);
    StepLooksUp(limit, m, c, d);
    MirrorsSnoc(Lookup(m, d), Of(log, d), c);
  }

  lemma StepMirrors(limit: int, m: Devices, log: Log, c: Call)
    requires Mirrors(m, log) && WellFormed(log)
    ensures var bound := PerDevice(EffectiveLimit(limit));
            && Step(limit, m, c).1 == AnswerOf(bound, log, c)
            && Mirrors(Step(limit, m, c).0, Extend(bound, log, c))
  {
    var log' := Extend(PerDevice(EffectiveLimit(limit)), log, c);
    assert Rising(Of(log, c.device));
    StepAnswers(limit, m, log, c);
    forall d ensures MirrorsDevice(Lookup(Step(limit, m, c).0, d), Of(log', d)) {
      StepMirrorsDevice(limit, m, log, log', c, d);
    }
  }

  /** On every history the guard answers as the log prescribes and ends mirroring it. */
  lemma {:induction false} RunMirrors(limit: int, calls: seq<Call>)
    ensures Answers(limit, calls) == AnswersOf(PerDevice(EffectiveLimit(limit)), calls)
    ensures Mirrors(Run(limit, calls), LogOf(PerDevice(EffectiveLimit(limit)), calls))
  {
    if calls != [] {
      var before := calls[..|calls| - 1];
      var log := LogOf(PerDevice(EffectiveLimit(limit)), before);
      RunMirrors(limit, before);
      LogIsWellFormed(PerDevice(EffectiveLimit(limit)), before);
      StepMirrors(limit, Run(limit, before), log, calls[|calls| - 1]);
    }
  }

  lemma {:induction false} LogWithinLimit(limit: nat, calls: seq<Call>, d: string)
    ensures |Of(LogOf(PerDevice(limit), calls), d)| <= limit
  {
    if calls != [] {
      var before := calls[..|calls| - 1];
      LogWithinLimit(limit, before, d);
      OfSnoc(LogOf(PerDevice(limit), before), calls[|calls| - 1], d);
    }
  }

  /**
   Run invariant, device by device: accepted sequences rise strictly from 1 or more and frame
   ids are distinct; the seen set is exactly the accepted ids, within the limit and never
   larger than the maximum sequence, which is the last accepted one.
   */
  lemma RunInvariant(limit: int, calls: seq<Call>, d: string)
    ensures var own := Of(LogOf(PerDevice(EffectiveLimit(limit)), calls), d);
            var st := Lookup(Run(limit, calls), d);
            && Rising(own)
            && st.seenFrames == Frames(own)
            && st.maxSequence == LastSequence(own)
            && |st.seenFrames| == |own| <= st.maxSequence
            && |st.seenFrames| <= EffectiveLimit(limit) == (if limit <= 0 then 100_000 else limit)
  {
    var bound := EffectiveLimit(limit);
    var log := LogOf(PerDevice(bound), calls);
    RunMirrors(limit, calls);
    LogIsWellFormed(PerDevice(bound), calls);
    assert MirrorsDevice(Lookup(Run(limit, calls), d), Of(log, d));
    assert Rising(Of(log, d));
    FramesCount(Of(log, d));
    CountBelowSequence(Of(log, d));
    LogWithinLimit(bound, calls, d);
  }

  /** Deleting the rejected calls changes no remaining answer and nothing observable. */
  lemma ErasureInMemory(limit: int, calls: seq<Call>, d: string)
    ensures var kept := LogOf(PerDevice(EffectiveLimit(limit)), calls);
            && Lookup(Run(limit, kept), d) == Lookup(Run(limit, calls), d)
            && |Answers(limit, kept)| == |kept|
            && forall i :: 0 <= i < |kept| ==> Answers(limit, kept)[i] == Accepted
  {
    var bound := PerDevice(EffectiveLimit(limit));
    var kept := LogOf(bound, calls);
    Erasure(bound, calls);
    RunMirrors(limit, calls);
    RunMirrors(limit, kept);
    assert MirrorsDevice(Lookup(Run(limit, calls), d), Of(kept, d));
    assert MirrorsDevice(Lookup(Run(limit, kept), d), Of(kept, d));
  }
}
