/**
 What a replay guard promises, stated over the log of calls it accepted and without any of
 the counters and sets that the two implementations keep.
 */
module Replay {
  import opened Text

  datatype Call = Call(device: string, frame: string, sequence: nat)

  datatype Answer = Accepted | Malformed | Replayed | Full | StoreFailed

  type Log = seq<Call>

  /** The calls of one device, in order. */
  function Of(log: Log, d: string): Log {
    if log == [] then []
    else
      var last := log[|log| - 1];
      var own := Of(log[..|log| - 1], d);
      if last.device == d then own + [last] else own
  }

  predicate IsMalformed(c: Call) {
    c.device == "" || c.frame == ""
  }

  /** Reused frame id, or a sequence not above every accepted one; sequence 0 is never fresh. */
  predicate Stale(own: Log, c: Call) {
    c.sequence == 0 || exists e :: e in own && (e.frame == c.frame || c.sequence <= e.sequence)
  }

  /** What a guard can hold: accepted calls per device, and the highest sequence; None is no bound. */
  datatype Bounds = Bounds(perDevice: Option<nat>, maxSequence: Option<nat>)

  /** The answer to a call, given the log so far. */
  function AnswerOf(bounds: Bounds, log: Log, c: Call): Answer {
    if IsMalformed(c) then Malformed
    else if Stale(Of(log, c.device), c) then Replayed
    else if bounds.perDevice.Some? && |Of(log, c.device)| >= bounds.perDevice.value then Full
    else if bounds.maxSequence.Some? && c.sequence > bounds.maxSequence.value then StoreFailed
    else Accepted
  }

  function Extend(bounds: Bounds, log: Log, c: Call): Log {
    if AnswerOf(bounds, log, c) == Accepted then log + [c] else log
  }

  /** The accepted calls of a history. */
  function LogOf(bounds: Bounds, calls: seq<Call>): Log {
    if calls == [] then []
    else Extend(bounds, LogOf(bounds, calls[..|calls| - 1]), calls[|calls| - 1])
  }

  function AnswersOf(bounds: Bounds, calls: seq<Call>): (r: seq<Answer>)
    ensures |r| == |calls|
  {
    if calls == [] then []
    else
      var before := calls[..|calls| - 1];
      AnswersOf(bounds, before) + [AnswerOf(bounds, LogOf(bounds, before), calls[|calls| - 1])]
  }

  // ----- the run invariant -----

  /** Sequences rise strictly from at least 1, and no frame id repeats. */
  predicate Rising(own: Log) {
    && (forall i :: 0 <= i < |own| ==> own[i].sequence >= 1)
    && (forall i, j :: 0 <= i < j < |own| ==>
          own[i].sequence < own[j].sequence && own[i].frame != own[j].frame)
  }

  function Frames(own: Log): set<string> {
    set e | e in own :: e.frame
  }

  function LastSequence(own: Log): nat {
    if own == [] then 0 else own[|own| - 1].sequence
  }

  ghost predicate WellFormed(log: Log) {
    forall d :: Rising(Of(log, d))
  }

  lemma OfSnoc(log: Log, c: Call, d: string)
    ensures Of(log + [c], d) == if c.device == d then Of(log, d) + [c] else Of(log, d)
  {
  }

  lemma ExtendKeepsWellFormed(bounds: Bounds, log: Log, c: Call)
    requires WellFormed(log)
    ensures WellFormed(Extend(bounds, log, c))
  {
  }

  lemma {:induction false} LogIsWellFormed(bounds: Bounds, calls: seq<Call>)
    ensures WellFormed(LogOf(bounds, calls))
  {
    if calls != [] {
      LogIsWellFormed(bounds, calls[..|calls| - 1]);
      ExtendKeepsWellFormed(bounds, LogOf(bounds, calls[..|calls| - 1]), calls[|calls| - 1]);
    }
  }

  lemma FramesSnoc(own: Log, c: Call)
    ensures Frames(own + [c]) == Frames(own) + {c.frame}
  {
  }

  lemma RisingPrefix(own: Log, k: nat)
    requires Rising(own) && k <= |own|
    ensures Rising(own[..k])
  {
  }

  lemma LastFrameIsNew(own: Log, k: nat)
    requires Rising(own) && k < |own|
    ensures own[k].frame !in Frames(own[..k])
  {
  }

  lemma {:induction false} FramesCount(own: Log)
    requires Rising(own)
    ensures |Frames(own)| == |own|
  {
    if own != [] {
      var k := |own| - 1;
      RisingPrefix(own, k);
      LastFrameIsNew(own, k);
      FramesSnoc(own[..k], own[k]);
      assert own == own[..k] + [own[k]];
      FramesCount(own[..k]);
    }
  }

  lemma {:induction false} CountBelowSequence(own: Log)
    requires Rising(own)
    ensures |own| <= LastSequence(own)
  {
    if |own| > 1 {
      CountBelowSequence(own[..|own| - 1]);
    }
  }

  /** Against a rising log, one comparison with the last sequence decides staleness. */
  lemma StaleByLast(own: Log, c: Call)
    requires Rising(own)
    ensures Stale(own, c) <==> c.frame in Frames(own) || c.sequence <= LastSequence(own)
  {
  }

  // ----- non-interference -----

  lemma {:induction false} OfOf(log: Log, d: string)
    ensures Of(Of(log, d), d) == Of(log, d)
  {
    if log != [] {
      var k := |log| - 1;
      OfOf(log[..k], d);
      if log[k].device == d {
        OfSnoc(Of(log[..k], d), log[k], d);
      }
    }
  }

  /** The answers that went to one device, in order. */
  function AnswersTo(calls: seq<Call>, answers: seq<Answer>, d: string): seq<Answer>
    requires |answers| == |calls|
  {
    if calls == [] then []
    else
      var k := |calls| - 1;
      var to := AnswersTo(calls[..k], answers[..k], d);
      if calls[k].device == d then to + [answers[k]] else to
  }

  /** A device's answers, and its accepted calls, are those of its own calls run alone. */
  lemma {:induction false} NonInterference(bounds: Bounds, calls: seq<Call>, d: string)
    ensures AnswersTo(calls, AnswersOf(bounds, calls), d) == AnswersOf(bounds, Of(calls, d))
    ensures Of(LogOf(bounds, calls), d) == LogOf(bounds, Of(calls, d))
  {
    if calls != [] {
      var k := |calls| - 1;
      var before := calls[..k];
      var c := calls[k];
      NonInterference(bounds, before, d);
      LocalStep(bounds, LogOf(bounds, before), c, d);
      assert AnswersOf(bounds, calls)[..k] == AnswersOf(bounds, before);
      if c.device == d {
        assert Of(calls, d)[..|Of(calls, d)| - 1] == Of(before, d);
      }
    }
  }

  lemma LocalStep(bounds: Bounds, log: Log, c: Call, d: string)
    ensures c.device == d ==>
              && AnswerOf(bounds, log, c) == AnswerOf(bounds, Of(log, d), c)
              && Of(Extend(bounds, log, c), d) == Extend(bounds, Of(log, d), c)
    ensures c.device != d ==> Of(Extend(bounds, log, c), d) == Of(log, d)
  {
    OfSnoc(log, c, d);
    OfOf(log, d);
  }

  // ----- erasure of rejected calls -----

  /** Replaying only the accepted calls accepts all of them and ends in the same log. */
  lemma {:induction false} Erasure(bounds: Bounds, calls: seq<Call>)
    ensures var log := LogOf(bounds, calls);
            && LogOf(bounds, log) == log
            && |AnswersOf(bounds, log)| == |log|
            && forall i :: 0 <= i < |log| ==> AnswersOf(bounds, log)[i] == Accepted
  {
    if calls != [] {
      var before := calls[..|calls| - 1];
      var c := calls[|calls| - 1];
      Erasure(bounds, before);
      var log := LogOf(bounds, before);
      if AnswerOf(bounds, log, c) == Accepted {
        assert (log + [c])[..|log|] == log;
      }
    }
  }

  // ----- a guard bounded per device against one bounded by sequence -----

  function Min(a: nat, b: nat): nat {
    if a <= b then a else b
  }

  function PerDevice(limit: nat): Bounds {
    Bounds(Some(limit), None)
  }

  function BySequence(top: nat): Bounds {
    Bounds(None, Some(top))
  }

  /** One device's log under the limit is the other guard's log cut off at the limit. */
  predicate CutOff(limit: nat, limited: Log, durable: Log) {
    limited == durable[..Min(limit, |durable|)]
  }

  lemma CutOffSnoc(limit: nat, own: Log, all: Log, c: Call, kept: bool, keptInAll: bool)
    requires CutOff(limit, own, all)
    requires kept ==> keptInAll && |own| < limit
    requires keptInAll && !kept ==> |own| >= limit
    ensures CutOff(limit, if kept then own + [c] else own, if keptInAll then all + [c] else all)
  {
    if kept {
      assert own == all;
    } else if keptInAll {
      assert own == all[..limit] == (all + [c])[..limit];
    }
  }

  lemma KeptTogether(limit: nat, top: nat, b: Log, u: Log, c: Call)
    requires CutOff(limit, Of(b, c.device), Of(u, c.device))
    requires AnswerOf(PerDevice(limit), b, c) == Accepted ==> c.sequence <= top
    ensures AnswerOf(PerDevice(limit), b, c) == Accepted ==>
              AnswerOf(BySequence(top), u, c) == Accepted && |Of(b, c.device)| < limit
    ensures AnswerOf(BySequence(top), u, c) == Accepted && AnswerOf(PerDevice(limit), b, c) != Accepted ==>
              |Of(b, c.device)| >= limit
  {
    var own, all := Of(b, c.device), Of(u, c.device);
    if Stale(own, c) {
      CutOffIsStale(limit, own, all, c);
    } else if |own| < limit {
      assert own == all;
    }
  }

  lemma CutOffStep(limit: nat, top: nat, b: Log, u: Log, c: Call, d: string)
    requires CutOff(limit, Of(b, d), Of(u, d)) && CutOff(limit, Of(b, c.device), Of(u, c.device))
    requires AnswerOf(PerDevice(limit), b, c) == Accepted ==> c.sequence <= top
    ensures CutOff(limit, Of(Extend(PerDevice(limit), b, c), d), Of(Extend(BySequence(top), u, c), d))
  {
    if c.device == d {
      KeptTogether(limit, top, b, u, c);
      CutOffSnoc(limit, Of(b, d), Of(u, d), c,
                 AnswerOf(PerDevice(limit), b, c) == Accepted, AnswerOf(BySequence(top), u, c) == Accepted);
    }
    OfSnoc(b, c, d);
    OfSnoc(u, c, d);
  }

  lemma CutOffIsStale(limit: nat, own: Log, all: Log, c: Call)
    requires CutOff(limit, own, all) && Stale(own, c)
    ensures Stale(all, c)
  {
    if c.sequence != 0 {
      var e :| e in own && (e.frame == c.frame || c.sequence <= e.sequence);
      assert e in all;
    }
  }

  /**
   Below the limit the answers agree.  At the limit the limited guard accepts nothing more,
   and what it still calls a replay is one.
   */
  predicate Agreement(limit: nat, accepted: nat, limited: Answer, durable: Answer) {
    && (accepted < limit ==> limited == durable)
    && (accepted >= limit ==> limited != Accepted)
    && (limited != Full ==> limited == durable)
  }

  /** From agreeing logs, the answers agree unless a sequence above the top is accepted. */
  lemma AgreementStep(limit: nat, top: nat, b: Log, u: Log, c: Call)
    requires CutOff(limit, Of(b, c.device), Of(u, c.device))
    ensures Agreement(limit, |Of(b, c.device)|,
                      AnswerOf(PerDevice(limit), b, c), AnswerOf(BySequence(top), u, c))
            <==> (AnswerOf(PerDevice(limit), b, c) == Accepted ==> c.sequence <= top)
  {
    var own, all := Of(b, c.device), Of(u, c.device);
    if Stale(own, c) {
      CutOffIsStale(limit, own, all, c);
    } else if |own| < limit {
      assert own == all;
    }
  }

  /** If the limited guard accepts call k, its sequence is not above the top. */
  predicate FitsAt(limit: nat, top: nat, calls: seq<Call>, k: nat)
    requires k < |calls|
  {
    AnswerOf(PerDevice(limit), LogOf(PerDevice(limit), calls[..k]), calls[k]) == Accepted ==>
      calls[k].sequence <= top
  }

  /** The answers of the two guards to call k are as they should be. */
  predicate AgreeAt(limit: nat, top: nat, calls: seq<Call>, k: nat)
    requires k < |calls|
  {
    var b, u := LogOf(PerDevice(limit), calls[..k]), LogOf(BySequence(top), calls[..k]);
    Agreement(limit, |Of(b, calls[k].device)|,
              AnswerOf(PerDevice(limit), b, calls[k]), AnswerOf(BySequence(top), u, calls[k]))
  }

  lemma {:induction false} LimitedRefinesDurable(limit: nat, top: nat, calls: seq<Call>, n: nat, d: string)
    requires n <= |calls| && forall k: nat :: k < n ==> FitsAt(limit, top, calls, k)
    ensures var before := calls[..n];
            CutOff(limit, Of(LogOf(PerDevice(limit), before), d), Of(LogOf(BySequence(top), before), d))
  {
    if n > 0 {
      var c := calls[n - 1];
      assert calls[..n] == calls[..n - 1] + [c];
      LimitedRefinesDurable(limit, top, calls, n - 1, d);
      LimitedRefinesDurable(limit, top, calls, n - 1, c.device);
      assert FitsAt(limit, top, calls, n - 1);
      CutOffStep(limit, top, LogOf(PerDevice(limit), calls[..n - 1]), LogOf(BySequence(top), calls[..n - 1]), c, d);
    }
  }

  lemma AgreeAtExactly(limit: nat, top: nat, calls: seq<Call>, k: nat)
    requires k < |calls| && forall i: nat :: i < k ==> FitsAt(limit, top, calls, i)
    ensures AgreeAt(limit, top, calls, k) <==> FitsAt(limit, top, calls, k)
  {
    var before, c := calls[..k], calls[k];
    LimitedRefinesDurable(limit, top, calls, k, c.device);
    AgreementStep(limit, top, LogOf(PerDevice(limit), before), LogOf(BySequence(top), before), c);
  }

  /** The two guards agree on the first n calls exactly when those fit. */
  lemma {:induction false} AgreementExactly(limit: nat, top: nat, calls: seq<Call>, n: nat)
    requires n <= |calls|
    ensures (forall k: nat :: k < n ==> AgreeAt(limit, top, calls, k)) <==>
            (forall k: nat :: k < n ==> FitsAt(limit, top, calls, k))
  {
    if n > 0 {
      AgreementExactly(limit, top, calls, n - 1);
      if forall k: nat :: k < n - 1 ==> FitsAt(limit, top, calls, k) {
        AgreeAtExactly(limit, top, calls, n - 1);
      }
    }
  }

  lemma {:induction false} AnswerAt(bounds: Bounds, calls: seq<Call>, k: nat)
    requires k < |calls|
    ensures AnswersOf(bounds, calls)[k] == AnswerOf(bounds, LogOf(bounds, calls[..k]), calls[k])
  {
    var before := calls[..|calls| - 1];
    if k < |before| {
      AnswerAt(bounds, before, k);
      assert before[..k] == calls[..k];
    }
  }
}
