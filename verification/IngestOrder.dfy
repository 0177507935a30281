/** Stored order: when each device's lines come out in sequence order, and when they do not. */
module IngestOrder {
  import opened Text
  import opened Clock
  import opened Trajectory
  import opened Signing
  import opened Verifier
  import opened SanitizePipeline
  import opened StorageConservation
  import opened StorageSuccess
  import opened Ingest
  import opened IngestTheorems
  import Sqlite = SqliteGuard
  import Storage

  // ----- order -----

  function NewFrames(v: Server, base: seq<Storage.Record>, s: State): (r: seq<SanitizedFrame>)
    requires Tracked(v.storage, s.sink) && |base| <= |AllRecords(v.storage, s.sink)|
    ensures |r| == |NewRecords(v, base, s)|
  {
    var recs := NewRecords(v, base, s);
    seq(|recs|, i requires 0 <= i < |recs| => recs[i].frame)
  }

  /** One device's frames are in sequence order. */
  predicate InOrder(fs: seq<SanitizedFrame>) {
    forall i, j :: 0 <= i < j < |fs| && fs[i].device.deviceId == fs[j].device.deviceId ==>
      fs[i].sequence < fs[j].sequence
  }

  /** Each device's attempts were written in the order in which they were admitted. */
  predicate WrittenAsAdmitted(admitted: seq<Attempt>, storedBy: seq<nat>)
    requires forall i :: 0 <= i < |storedBy| ==> storedBy[i] < |admitted|
  {
    forall i, j :: 0 <= i < j < |storedBy|
                   && admitted[storedBy[i]].envelope.deviceId == admitted[storedBy[j]].envelope.deviceId
                   ==> storedBy[i] < storedBy[j]
  }

  lemma OrderOfWrites(fs: seq<SanitizedFrame>, admitted: seq<Attempt>, storedBy: seq<nat>)
    requires |fs| == |storedBy| && Distinct(storedBy)
    requires forall i :: 0 <= i < |storedBy| ==>
               storedBy[i] < |admitted| && Carries(admitted[storedBy[i]].envelope, fs[i])
    requires forall x, y :: 0 <= x < y < |admitted| ==> Follows(admitted[x].envelope, admitted[y].envelope)
    ensures InOrder(fs) <==> WrittenAsAdmitted(admitted, storedBy)
  {
  }

  /** Stored order, exactly: lines are in sequence order iff writes kept the admission order. */
  lemma OrderExactly(v: Server, base: seq<Storage.Record>, s: State)
    requires Inv(v, base, s)
    ensures InOrder(NewFrames(v, base, s)) <==> WrittenAsAdmitted(s.admitted, s.storedBy)
  {
    FramesCarry(v, base, s);
    OrderOfWrites(NewFrames(v, base, s), s.admitted, s.storedBy);
  }

  lemma FramesCarry(v: Server, base: seq<Storage.Record>, s: State)
    requires Inv(v, base, s)
    ensures |NewFrames(v, base, s)| == |s.storedBy|
    ensures forall i :: 0 <= i < |s.storedBy| ==>
              Carries(s.admitted[s.storedBy[i]].envelope, NewFrames(v, base, s)[i])
  {
    forall i | 0 <= i < |s.storedBy|
      ensures Carries(s.admitted[s.storedBy[i]].envelope, NewFrames(v, base, s)[i])
    {
      StoredIsGenuine(v, base, s, i);
    }
  }

  // ----- devices that wait for their reply -----

  predicate SameDevice(admitted: seq<Attempt>, j: nat, k: nat) {
    j < |admitted| && k < |admitted| && admitted[j].envelope.deviceId == admitted[k].envelope.deviceId
  }

  predicate NoneInFlight(s: State, d: string) {
    forall k :: k in s.inflight && k < |s.admitted| ==> s.admitted[k].envelope.deviceId != d
  }

  /** No attempt is admitted while another one of the same device is in flight. */
  ghost predicate Serial(v: Server, s: State, steps: seq<Step>)
    requires Storage.Valid(v.storage, s.sink)
  {
    steps == [] ||
    var before, step := steps[..|steps| - 1], steps[|steps| - 1];
    Serial(v, s, before) && (step.Admit? ==> NoneInFlight(Execute(v, s, before), step.attempt.envelope.deviceId))
  }

  /** A device has at most one attempt in flight, newer than all that it has stored in order. */
  predicate OnePerDevice(admitted: seq<Attempt>, inflight: set<nat>, storedBy: seq<nat>) {
    && (forall k :: k in inflight ==> k < |admitted|)
    && (forall i :: 0 <= i < |storedBy| ==> storedBy[i] < |admitted|)
    && (forall j, k :: j in inflight && k in inflight && SameDevice(admitted, j, k) ==> j == k)
    && (forall i, k :: 0 <= i < |storedBy| && k in inflight && SameDevice(admitted, storedBy[i], k) ==>
          storedBy[i] < k)
    && WrittenAsAdmitted(admitted, storedBy)
  }

  lemma AdmitOnePerDevice(admitted: seq<Attempt>, inflight: set<nat>, storedBy: seq<nat>, a: Attempt)
    requires OnePerDevice(admitted, inflight, storedBy)
    requires forall k :: k in inflight ==> admitted[k].envelope.deviceId != a.envelope.deviceId
    ensures OnePerDevice(admitted + [a], inflight + {|admitted|}, storedBy)
  {
    var all := admitted + [a];
    forall j, k | j in inflight + {|admitted|} && k in inflight + {|admitted|} && SameDevice(all, j, k)
      ensures j == k
    {
      if j < |admitted| && k < |admitted| {
        assert SameDevice(admitted, j, k);
      }
    }
    forall i, k | 0 <= i < |storedBy| && k in inflight + {|admitted|} && SameDevice(all, storedBy[i], k)
      ensures storedBy[i] < k
    {
      if k < |admitted| {
        assert SameDevice(admitted, storedBy[i], k);
      }
    }
  }

  lemma ShrinkOnePerDevice(admitted: seq<Attempt>, inflight: set<nat>, storedBy: seq<nat>, left: set<nat>)
    requires OnePerDevice(admitted, inflight, storedBy) && left <= inflight
    ensures OnePerDevice(admitted, left, storedBy)
  {
  }

  lemma LandOnePerDevice(admitted: seq<Attempt>, inflight: set<nat>, storedBy: seq<nat>, k: nat)
    requires OnePerDevice(admitted, inflight, storedBy) && k in inflight
    ensures OnePerDevice(admitted, inflight - {k}, storedBy + [k])
  {
    var stored := storedBy + [k];
    forall j | j in inflight - {k} ensures !SameDevice(admitted, k, j) {
    }
    forall i, j | 0 <= i < j < |stored| && SameDevice(admitted, stored[i], stored[j])
      ensures stored[i] < stored[j]
    {
      if j == |storedBy| {
        assert SameDevice(admitted, storedBy[i], k);
      }
    }
  }

  /** What a step can do to the attempts: admit one, land one, or only lose some. */
  lemma StepShape(v: Server, s: State, step: Step)
    requires Storage.Valid(v.storage, s.sink)
    ensures var t := Next(v, s, step);
            || (step.Admit? && t.admitted == s.admitted + [step.attempt] && t.storedBy == s.storedBy
                && t.inflight.Keys == s.inflight.Keys + {|s.admitted|})
            || (step.WriteStep? && step.k in s.inflight && t.admitted == s.admitted
                && t.storedBy == s.storedBy + [step.k] && t.inflight.Keys == s.inflight.Keys - {step.k})
            || (t.admitted == s.admitted && t.storedBy == s.storedBy && t.inflight.Keys <= s.inflight.Keys)
  {
  }

  lemma NextOnePerDevice(v: Server, s: State, step: Step)
    requires Storage.Valid(v.storage, s.sink) && OnePerDevice(s.admitted, s.inflight.Keys, s.storedBy)
    requires step.Admit? ==> NoneInFlight(s, step.attempt.envelope.deviceId)
    ensures var t := Next(v, s, step); OnePerDevice(t.admitted, t.inflight.Keys, t.storedBy)
  {
    var t := Next(v, s, step);
    StepShape(v, s, step);
    if t.admitted != s.admitted {
      AdmitOnePerDevice(s.admitted, s.inflight.Keys, s.storedBy, step.attempt);
    } else if t.storedBy != s.storedBy {
      LandOnePerDevice(s.admitted, s.inflight.Keys, s.storedBy, step.k);
    } else {
      ShrinkOnePerDevice(s.admitted, s.inflight.Keys, s.storedBy, t.inflight.Keys);
    }
  }

  lemma {:induction false} SerialRun(v: Server, s: State, steps: seq<Step>)
    requires Storage.Valid(v.storage, s.sink) && OnePerDevice(s.admitted, s.inflight.Keys, s.storedBy)
    requires Serial(v, s, steps)
    ensures var t := Execute(v, s, steps); OnePerDevice(t.admitted, t.inflight.Keys, t.storedBy)
  {
    if steps != [] {
      var before := steps[..|steps| - 1];
      SerialRun(v, s, before);
      NextOnePerDevice(v, Execute(v, s, before), steps[|steps| - 1]);
    }
  }

  /**
   Stored order.  When no two attempts of one device overlap, whatever the other devices do,
   each device's new lines, read across the archives in rotation order and then the active
   file, have strictly rising sequences, across any failures, crashes and restarts.
   */
  lemma SerialStoresInOrder(v: Server, s: State, steps: seq<Step>)
    requires Initial(v, s) && Serial(v, s, steps)
    ensures var base := AllRecords(v.storage, s.sink);
            Inv(v, base, Execute(v, s, steps)) && InOrder(NewFrames(v, base, Execute(v, s, steps)))
  {
    var base := AllRecords(v.storage, s.sink);
    InitialInv(v, s);
    RunKeeps(v, base, s, steps);
    SerialRun(v, s, steps);
    OrderExactly(v, base, Execute(v, s, steps));
  }

  // ----- devices that do not -----

  predicate Storable(v: Server, g: SanitizedFrame) {
    Storage.Safe(g) && v.encode(g).Some?
  }

  /** The frame's line can be stored now, with a name to spare for another rotation. */
  predicate RoomForTwo(v: Server, sink: Storage.Sink, now: Time, g: SanitizedFrame)
    requires Storage.Valid(v.storage, sink)
  {
    && Storable(v, g) && CanRotate(v.storage, sink, now, |v.encode(g).value| + 1)
    && HasTwoFreeNames(v.storage, sink.dir, Stamp(now))
  }

  function PlainWrite(k: nat, now: Time): Step {
    WriteStep(k, false, now, {})
  }

  function PlainRequest(v: Server, g: SanitizedFrame, now: Time): Storage.Request {
    WriteRequest(v, g, false, now, {})
  }

  lemma WriteLands(v: Server, s: State, k: nat, g: SanitizedFrame, now: Time)
    requires Storage.Valid(v.storage, s.sink) && k in s.inflight && s.inflight[k] == Ready(g)
    requires v.encode(g).Some? && Storage.Write(v.storage, s.sink, PlainRequest(v, g, now)).error == None
    ensures Next(v, s, PlainWrite(k, now)) ==
              s.(sink := Storage.Write(v.storage, s.sink, PlainRequest(v, g, now)).sink,
                 inflight := s.inflight - {k}, storedBy := s.storedBy + [k])
  {
  }

  /** The store takes the two lines. */
  lemma BothLinesFit(v: Server, sink: Storage.Sink, f: SanitizedFrame, g: SanitizedFrame, now: Time)
    requires Storage.Valid(v.storage, sink) && Tracked(v.storage, sink)
    requires Storable(v, f) && Storable(v, g) && RoomForTwo(v, sink, now, f)
    ensures var o := Storage.Write(v.storage, sink, PlainRequest(v, f, now));
            && o.error == None && Storage.Valid(v.storage, o.sink)
            && Storage.Write(v.storage, o.sink, PlainRequest(v, g, now)).error == None
  {
    WriteSucceedsExactly(v.storage, sink, PlainRequest(v, f, now));
    SecondWriteSucceeds(v.storage, sink, PlainRequest(v, f, now), PlainRequest(v, g, now));
  }

  function TwoWrites(first: nat, second: nat, now: Time): seq<Step> {
    [PlainWrite(first, now), PlainWrite(second, now)]
  }

  /** Two attempts can be written one after the other at one instant. */
  lemma BothWritesLand(v: Server, s: State, first: nat, second: nat, f: SanitizedFrame, g: SanitizedFrame, now: Time)
    requires Storage.Valid(v.storage, s.sink) && Tracked(v.storage, s.sink) && first != second
    requires first in s.inflight && s.inflight[first] == Ready(f)
    requires second in s.inflight && s.inflight[second] == Ready(g)
    requires Storable(v, f) && Storable(v, g) && RoomForTwo(v, s.sink, now, f)
    ensures var t := Execute(v, s, TwoWrites(first, second, now));
            t.admitted == s.admitted && t.storedBy == s.storedBy + [first] + [second]
  {
    BothLinesFit(v, s.sink, f, g, now);
    WriteLands(v, s, first, f, now);
    var m := Next(v, s, PlainWrite(first, now));
    WriteLands(v, m, second, g, now);
    RunOfTwo(v, s, PlainWrite(first, now), PlainWrite(second, now));
  }

  /**
   The converse.  As soon as two attempts of one device are both ready, the writes can go
   either way, and the younger one first leaves the device's lines out of order.
   */
  lemma OverlapCanInvert(v: Server, base: seq<Storage.Record>, s: State, elder: nat, younger: nat, now: Time,
                         f: SanitizedFrame, g: SanitizedFrame)
    requires Inv(v, base, s) && elder < younger && SameDevice(s.admitted, elder, younger)
    requires elder in s.inflight && s.inflight[elder] == Ready(f)
    requires younger in s.inflight && s.inflight[younger] == Ready(g)
    requires Storable(v, f) && Storable(v, g) && RoomForTwo(v, s.sink, now, g)
    ensures var t := Execute(v, s, TwoWrites(younger, elder, now));
            && Inv(v, base, t) && t.admitted == s.admitted && t.storedBy == s.storedBy + [younger] + [elder]
            && !InOrder(NewFrames(v, base, t))
  {
    BothWritesLand(v, s, younger, elder, g, f, now);
    RunKeeps(v, base, s, TwoWrites(younger, elder, now));
    OutOfOrder(v, base, s, Execute(v, s, TwoWrites(younger, elder, now)), elder, younger);
  }

  lemma RunOfTwo(v: Server, s: State, one: Step, two: Step)
    requires Storage.Valid(v.storage, s.sink) && Storage.Valid(v.storage, Next(v, s, one).sink)
    ensures Execute(v, s, [one, two]) == Next(v, Next(v, s, one), two)
  {
    assert [one, two][..1] == [one];
    assert Execute(v, s, [one]) == Next(v, s, one) by {
      assert [one][..0] == [];
    }
  }

  lemma OutOfOrder(v: Server, base: seq<Storage.Record>, s: State, t: State, elder: nat, younger: nat)
    requires Inv(v, base, t) && elder < younger && SameDevice(s.admitted, elder, younger)
    requires s.admitted == t.admitted && t.storedBy == s.storedBy + [younger] + [elder]
    ensures !InOrder(NewFrames(v, base, t))
  {
    OrderExactly(v, base, t);
    NotAsAdmitted(t.admitted, s.storedBy, t.storedBy, elder, younger);
  }

  lemma NotAsAdmitted(admitted: seq<Attempt>, before: seq<nat>, storedBy: seq<nat>, elder: nat, younger: nat)
    requires forall i :: 0 <= i < |storedBy| ==> storedBy[i] < |admitted|
    requires elder < younger && SameDevice(admitted, elder, younger)
    requires storedBy == before + [younger] + [elder]
    ensures !WrittenAsAdmitted(admitted, storedBy)
  {
    var n := |before|;
    assert storedBy[n] == younger && storedBy[n + 1] == elder;
  }

  // ----- and the two can get there from any start -----

  /** The payload binds to the envelope and the sanitizer makes this frame of it. */
  ghost predicate Yields(v: Server, e: SignedEnvelope, at: Time, g: SanitizedFrame) {
    Payload(v, e).Some? && ProcessFrame(v.settings, Payload(v, e).value, at).frame == Some(g)
  }

  lemma AdmitSucceeds(v: Server, s: State, a: Attempt)
    requires Storage.Valid(v.storage, s.sink) && Admissible(v, s.tables, a)
    ensures Next(v, s, Admit(a, Sqlite.NoFault)) ==
              s.(tables := Sqlite.Recorded(s.tables, CallOf(a.envelope)),
                 admitted := s.admitted + [a], inflight := s.inflight[|s.admitted| := Admitted])
  {
    VerdictExactly(v.crypto, v.policy, v.registry, s.tables, a);
  }

  lemma BindSucceeds(v: Server, s: State, k: nat)
    requires Storage.Valid(v.storage, s.sink) && k < |s.admitted|
    requires k in s.inflight && s.inflight[k].Admitted?
    requires Payload(v, s.admitted[k].envelope).Some?
    ensures Next(v, s, BindStep(k)) ==
              s.(inflight := s.inflight[k := Bound(Payload(v, s.admitted[k].envelope).value)])
  {
  }

  lemma SanitizeSucceeds(v: Server, s: State, k: nat, at: Time, e: SignedEnvelope, g: SanitizedFrame)
    requires Storage.Valid(v.storage, s.sink) && Yields(v, e, at, g)
    requires k in s.inflight && s.inflight[k] == Bound(Payload(v, e).value)
    ensures Next(v, s, SanitizeStep(k, at)) == s.(inflight := s.inflight[k := Ready(g)])
  {
    AcceptExactly(v.settings, Payload(v, e).value, at);
  }

  function Admits(a: Attempt, b: Attempt): seq<Step> {
    [Admit(a, Sqlite.NoFault), Admit(b, Sqlite.NoFault)]
  }

  /** Attempts k and k + 1 are at these phases, and nothing but the tables has changed otherwise. */
  predicate Advanced(s: State, t: State, a: Attempt, b: Attempt, p: Phase, q: Phase) {
    var k := |s.admitted|;
    && t.admitted == s.admitted + [a] + [b] && t.sink == s.sink && t.storedBy == s.storedBy
    && k in t.inflight && t.inflight[k] == p && k + 1 in t.inflight && t.inflight[k + 1] == q
  }

  lemma StillAdmissible(v: Server, t: Sqlite.Tables, a: Attempt, b: Attempt)
    requires Admissible(v, t, b) && Follows(a.envelope, b.envelope)
    ensures Admissible(v, Sqlite.Recorded(t, CallOf(a.envelope)), b)
  {
  }

  /** Both are admitted in the order of their sequences. */
  lemma AdmitBoth(v: Server, s: State, a: Attempt, b: Attempt)
    requires Storage.Valid(v.storage, s.sink) && Admissible(v, s.tables, a) && Admissible(v, s.tables, b)
    requires Follows(a.envelope, b.envelope)
    ensures Advanced(s, Execute(v, s, Admits(a, b)), a, b, Admitted, Admitted)
  {
    AdmitSucceeds(v, s, a);
    StillAdmissible(v, s.tables, a, b);
    var tables := Sqlite.Recorded(s.tables, CallOf(a.envelope));
    AdmitSucceeds(v, s.(tables := tables, admitted := s.admitted + [a],
                        inflight := s.inflight[|s.admitted| := Admitted]), b);
    RunOfTwo(v, s, Admit(a, Sqlite.NoFault), Admit(b, Sqlite.NoFault));
  }

  lemma BindBoth(v: Server, s: State, t: State, a: Attempt, b: Attempt)
    requires Storage.Valid(v.storage, t.sink) && Advanced(s, t, a, b, Admitted, Admitted)
    requires Payload(v, a.envelope).Some? && Payload(v, b.envelope).Some?
    ensures var k := |s.admitted|;
            Advanced(s, Execute(v, t, [BindStep(k), BindStep(k + 1)]), a, b,
                     Bound(Payload(v, a.envelope).value), Bound(Payload(v, b.envelope).value))
  {
    var k := |s.admitted|;
    assert t.admitted[k] == a && t.admitted[k + 1] == b;
    BindSucceeds(v, t, k);
    BindSucceeds(v, t.(inflight := t.inflight[k := Bound(Payload(v, a.envelope).value)]), k + 1);
    RunOfTwo(v, t, BindStep(k), BindStep(k + 1));
  }

  lemma SanitizeBoth(v: Server, s: State, t: State, a: Attempt, b: Attempt, at: Time, at': Time,
                     f: SanitizedFrame, g: SanitizedFrame)
    requires Storage.Valid(v.storage, t.sink) && Yields(v, a.envelope, at, f) && Yields(v, b.envelope, at', g)
    requires Advanced(s, t, a, b, Bound(Payload(v, a.envelope).value), Bound(Payload(v, b.envelope).value))
    ensures var k := |s.admitted|;
            Advanced(s, Execute(v, t, [SanitizeStep(k, at), SanitizeStep(k + 1, at')]), a, b, Ready(f), Ready(g))
  {
    var k := |s.admitted|;
    SanitizeSucceeds(v, t, k, at, a.envelope, f);
    SanitizeSucceeds(v, t.(inflight := t.inflight[k := Ready(f)]), k + 1, at', b.envelope, g);
    RunOfTwo(v, t, SanitizeStep(k, at), SanitizeStep(k + 1, at'));
  }

  lemma RunSnoc(v: Server, s: State, steps: seq<Step>, step: Step)
    requires Storage.Valid(v.storage, s.sink)
    ensures Execute(v, s, steps + [step]) == Next(v, Execute(v, s, steps), step)
  {
    assert (steps + [step])[..|steps|] == steps;
  }

  lemma StepsAssociate(one: seq<Step>, two: seq<Step>, step: Step)
    ensures one + (two + [step]) == (one + two) + [step]
  {
  }

  lemma {:induction false} RunConcat(v: Server, s: State, one: seq<Step>, two: seq<Step>)
    requires Storage.Valid(v.storage, s.sink)
    ensures Execute(v, s, one + two) == Execute(v, Execute(v, s, one), two)
    decreases |two|
  {
    if two == [] {
      assert one + two == one;
    } else {
      var front, last := two[..|two| - 1], two[|two| - 1];
      RunConcat(v, s, one, front);
      StepsAssociate(one, front, last);
      RunSnoc(v, s, one + front, last);
      assert two == front + [last];
      RunSnoc(v, Execute(v, s, one), front, last);
    }
  }

  /** Two new attempts up to the point where both are ready to be written. */
  function UpToReady(k: nat, a: Attempt, b: Attempt, at: Time, at': Time): seq<Step> {
    Admits(a, b) + [BindStep(k), BindStep(k + 1)] + [SanitizeStep(k, at), SanitizeStep(k + 1, at')]
  }

  lemma BothReady(v: Server, s: State, a: Attempt, b: Attempt, at: Time, at': Time,
                  f: SanitizedFrame, g: SanitizedFrame)
    requires Storage.Valid(v.storage, s.sink) && Admissible(v, s.tables, a) && Admissible(v, s.tables, b)
    requires Follows(a.envelope, b.envelope)
    requires Yields(v, a.envelope, at, f) && Yields(v, b.envelope, at', g)
    ensures Advanced(s, Execute(v, s, UpToReady(|s.admitted|, a, b, at, at')), a, b, Ready(f), Ready(g))
  {
    var k := |s.admitted|;
    var binds, cleans := [BindStep(k), BindStep(k + 1)], [SanitizeStep(k, at), SanitizeStep(k + 1, at')];
    AdmitBoth(v, s, a, b);
    RunConcat(v, s, Admits(a, b), binds);
    BindBoth(v, s, Execute(v, s, Admits(a, b)), a, b);
    RunConcat(v, s, Admits(a, b) + binds, cleans);
    SanitizeBoth(v, s, Execute(v, s, Admits(a, b) + binds), a, b, at, at', f, g);
  }

  lemma LastTwo(admitted: seq<Attempt>, a: Attempt, b: Attempt)
    requires a.envelope.deviceId == b.envelope.deviceId
    ensures SameDevice(admitted + [a] + [b], |admitted|, |admitted| + 1)
  {
  }

  lemma InvertedFromReady(v: Server, base: seq<Storage.Record>, s: State, t: State, a: Attempt, b: Attempt,
                          f: SanitizedFrame, g: SanitizedFrame, now: Time)
    requires Inv(v, base, t) && Advanced(s, t, a, b, Ready(f), Ready(g))
    requires a.envelope.deviceId == b.envelope.deviceId
    requires Storable(v, f) && Storable(v, g) && RoomForTwo(v, t.sink, now, g)
    ensures var k := |s.admitted|;
            var u := Execute(v, t, TwoWrites(k + 1, k, now));
            && Inv(v, base, u) && u.admitted == t.admitted && u.storedBy == s.storedBy + [k + 1] + [k]
            && !InOrder(NewFrames(v, base, u))
  {
    var k := |s.admitted|;
    LastTwo(s.admitted, a, b);
    OverlapCanInvert(v, base, t, k, k + 1, now, f, g);
  }

  /** Two new attempts, interleaved as two concurrent requests can be, the younger one written first. */
  function Overlapping(k: nat, a: Attempt, b: Attempt, at: Time, at': Time, now: Time): seq<Step> {
    UpToReady(k, a, b, at, at') + TwoWrites(k + 1, k, now)
  }

  /** From any state that the machine can be in. */
  lemma InversionFollows(v: Server, base: seq<Storage.Record>, s: State, a: Attempt, b: Attempt,
                         at: Time, at': Time, now: Time, f: SanitizedFrame, g: SanitizedFrame)
    requires Inv(v, base, s) && Admissible(v, s.tables, a) && Admissible(v, s.tables, b)
    requires a.envelope.deviceId == b.envelope.deviceId && Follows(a.envelope, b.envelope)
    requires Yields(v, a.envelope, at, f) && Yields(v, b.envelope, at', g)
    requires Storable(v, f) && Storable(v, g)
    requires RoomForTwo(v, s.sink, now, g)
    ensures var k := |s.admitted|;
            var t := Execute(v, s, Overlapping(k, a, b, at, at', now));
            && Inv(v, base, t) && t.admitted == s.admitted + [a] + [b] && t.storedBy == s.storedBy + [k + 1] + [k]
            && !InOrder(NewFrames(v, base, t))
  {
    var k := |s.admitted|;
    BothReady(v, s, a, b, at, at', f, g);
    RunKeeps(v, base, s, UpToReady(k, a, b, at, at'));
    InvertedFromReady(v, base, s, Execute(v, s, UpToReady(k, a, b, at, at')), a, b, f, g, now);
    RunConcat(v, s, UpToReady(k, a, b, at, at'), TwoWrites(k + 1, k, now));
  }

  lemma InversionAfter(v: Server, base: seq<Storage.Record>, s: State, steps: seq<Step>, m: State,
                       a: Attempt, b: Attempt, at: Time, at': Time, now: Time, f: SanitizedFrame, g: SanitizedFrame)
    requires Storage.Valid(v.storage, s.sink) && m == Execute(v, s, steps)
    requires Inv(v, base, m) && Admissible(v, m.tables, a) && Admissible(v, m.tables, b)
    requires a.envelope.deviceId == b.envelope.deviceId && Follows(a.envelope, b.envelope)
    requires Yields(v, a.envelope, at, f) && Yields(v, b.envelope, at', g)
    requires Storable(v, f) && Storable(v, g) && RoomForTwo(v, m.sink, now, g)
    ensures var k := |m.admitted|;
            var t := Execute(v, s, steps + Overlapping(k, a, b, at, at', now));
            && Inv(v, base, t) && t.admitted == m.admitted + [a] + [b] && t.storedBy == m.storedBy + [k + 1] + [k]
            && !InOrder(NewFrames(v, base, t))
  {
    InversionFollows(v, base, m, a, b, at, at', now, f, g);
    RunConcat(v, s, steps, Overlapping(|m.admitted|, a, b, at, at', now));
  }

  /**
   Order is lost in runs that can really happen.  Any run from the start, the empty one
   included, can go on without a single failure so that two authentic new attempts of one
   device, whose payloads bind and pass the sanitizer, are both admitted and both stored, and
   the device's lines are out of order.
   */
  lemma InversionIsReachable(v: Server, s: State, steps: seq<Step>, m: State, a: Attempt, b: Attempt,
                             at: Time, at': Time, now: Time, f: SanitizedFrame, g: SanitizedFrame)
    requires Initial(v, s) && m == Execute(v, s, steps)
    requires Admissible(v, m.tables, a) && Admissible(v, m.tables, b)
    requires a.envelope.deviceId == b.envelope.deviceId && Follows(a.envelope, b.envelope)
    requires Yields(v, a.envelope, at, f) && Yields(v, b.envelope, at', g)
    requires Storable(v, f) && Storable(v, g) && Storage.Valid(v.storage, m.sink) && RoomForTwo(v, m.sink, now, g)
    ensures var base := AllRecords(v.storage, s.sink);
            var k := |m.admitted|;
            var t := Execute(v, s, steps + Overlapping(k, a, b, at, at', now));
            && Inv(v, base, t) && t.admitted == m.admitted + [a] + [b] && t.storedBy == m.storedBy + [k + 1] + [k]
            && !InOrder(NewFrames(v, base, t))
  {
    var base := AllRecords(v.storage, s.sink);
    InitialInv(v, s);
    RunKeeps(v, base, s, steps);
    InversionAfter(v, base, s, steps, m, a, b, at, at', now, f, g);
  }
}
