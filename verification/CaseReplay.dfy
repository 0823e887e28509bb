/** The case store against its outbox: over any run of operations the cases are what a
    replay of the outbox events gives. */
module CaseReplay {
  import opened Json
  import opened CaseReconciliation

  // ---------- replaying events ----------

  /** The part of a source that its event carries. */
  datatype Trace = Trace(findingId: string, attemptId: string, relation: Relation, reason: string, priorCaseId: Option<string>)

  /** The part of a case that its events determine. */
  datatype Skeleton = Skeleton(id: string, traces: seq<Trace>, changedFrom: Option<string>, recurrenceCount: nat)

  function TraceOf(s: Source): Trace {
    Trace(s.finding.findingId, s.finding.attemptId, s.relation, s.reason, s.priorCaseId)
  }

  function EventTrace(e: Event): Trace {
    Trace(e.findingId, e.attemptId, e.outcome, e.reason, e.priorCaseId)
  }

  function Traces(sources: seq<Source>): (ts: seq<Trace>)
    ensures |ts| == |sources| && forall i :: 0 <= i < |sources| ==> ts[i] == TraceOf(sources[i])
  {
    seq(|sources|, i requires 0 <= i < |sources| => TraceOf(sources[i]))
  }

  function SkeletonOf(c: Case): Skeleton {
    Skeleton(c.id, Traces(c.sources), c.changedFrom, c.recurrenceCount)
  }

  function Skeletons(cases: seq<Case>): (ks: seq<Skeleton>)
    ensures |ks| == |cases| && forall i :: 0 <= i < |cases| ==> ks[i] == SkeletonOf(cases[i])
  {
    seq(|cases|, i requires 0 <= i < |cases| => SkeletonOf(cases[i]))
  }

  function SkeletonIds(ks: seq<Skeleton>): (ids: seq<string>)
    ensures |ids| == |ks| && forall i :: 0 <= i < |ks| ==> ids[i] == ks[i].id
  {
    seq(|ks|, i requires 0 <= i < |ks| => ks[i].id)
  }

  /** What an event alone says about the cases. */
  function ReplayOne(ks: seq<Skeleton>, e: Event): seq<Skeleton> {
    if IsLinked(e.outcome) then
      var i := Position(SkeletonIds(ks), e.caseId);
      if i < 0 then ks
      else ks[i := ks[i].(traces := ks[i].traces + [EventTrace(e)],
                          recurrenceCount := ks[i].recurrenceCount + (if e.outcome == Recurrence then 1 else 0))]
    else
      ks + [Skeleton(e.caseId, [EventTrace(e)], if e.outcome == MateriallyChanged then e.priorCaseId else None, 1)]
  }

  function ReplayFrom(ks: seq<Skeleton>, events: seq<Event>): seq<Skeleton> {
    if events == [] then ks
    else ReplayOne(ReplayFrom(ks, events[..|events| - 1]), events[|events| - 1])
  }

  function AsBuiltEvents(outbox: seq<OutboxEntry>): seq<Event> {
    if outbox == [] then []
    else
      var last := outbox[|outbox| - 1];
      AsBuiltEvents(outbox[..|outbox| - 1]) + (if last.AsBuiltEntry? then [last.event] else [])
  }

  lemma {:induction false} EventsOfEntries(before: seq<OutboxEntry>, events: seq<Event>, newEventId: nat -> string, occurredAt: string)
    ensures AsBuiltEvents(before + Entries(events, newEventId, occurredAt)) == AsBuiltEvents(before) + events
  {
    var all := before + Entries(events, newEventId, occurredAt);
    if events == [] {
      assert all == before;
    } else {
      var n := |events| - 1;
      EventsOfEntries(before, events[..n], newEventId, occurredAt);
      assert all[..|all| - 1] == before + Entries(events[..n], newEventId, occurredAt);
      assert events == events[..n] + [events[n]];
    }
  }

  lemma {:induction false} ReplayConcat(ks: seq<Skeleton>, a: seq<Event>, b: seq<Event>)
    ensures ReplayFrom(ks, a + b) == ReplayFrom(ReplayFrom(ks, a), b)
  {
    if b == [] {
      assert a + b == a;
    } else {
      ReplayConcat(ks, a, b[..|b| - 1]);
      assert (a + b)[..|a + b| - 1] == a + b[..|b| - 1];
    }
  }

  lemma SameIndex(cases: seq<Case>, id: string)
    ensures Position(SkeletonIds(Skeletons(cases)), id) == IndexOf(cases, id)
  {
    assert SkeletonIds(Skeletons(cases)) == CaseIds(cases);
  }

  /** One result changes the cases as the events it records do. */
  lemma TakeReplays(b: Batch, r: Result, newCaseId: nat -> string)
    ensures var t := Take(b, r, newCaseId);
            && b.recorded <= t.recorded
            && Skeletons(t.cases) == ReplayFrom(Skeletons(b.cases), t.recorded[|b.recorded|..])
  {
    var t := Take(b, r, newCaseId);
    if |t.recorded| > |b.recorded| {
      var e := t.recorded[|b.recorded|];
      assert t.recorded[|b.recorded|..] == [e];
      assert [e][..0] == [];
      if IsLinked(r.relation) {
        SameIndex(b.cases, r.priorCaseId.value);
        var i := IndexOf(b.cases, r.priorCaseId.value);
        assert SkeletonOf(t.cases[i]).traces == SkeletonOf(b.cases[i]).traces + [EventTrace(e)];
      } else {
        assert SkeletonOf(t.cases[|b.cases|]).traces == [EventTrace(e)];
      }
      assert Skeletons(t.cases) == ReplayOne(Skeletons(b.cases), e);
    } else {
      assert t.recorded[|b.recorded|..] == [];
    }
  }

  lemma {:induction false} TakeAllReplays(b: Batch, rs: seq<Result>, newCaseId: nat -> string)
    ensures var t := TakeAll(b, rs, newCaseId);
            && b.recorded <= t.recorded
            && Skeletons(t.cases) == ReplayFrom(Skeletons(b.cases), t.recorded[|b.recorded|..])
  {
    hide Take;
    if rs == [] {
      assert b.recorded[|b.recorded|..] == [];
    } else {
      var n := |rs| - 1;
      TakeAllReplays(b, rs[..n], newCaseId);
      var m := TakeAll(b, rs[..n], newCaseId);
      TakeReplays(m, rs[n], newCaseId);
      var t := TakeAll(b, rs, newCaseId);
      ReplayConcat(Skeletons(b.cases), m.recorded[|b.recorded|..], t.recorded[|m.recorded|..]);
      assert t.recorded[|b.recorded|..] == m.recorded[|b.recorded|..] + t.recorded[|m.recorded|..];
    }
  }

  // ---------- runs of operations ----------

  /** The store, and how many case ids it has drawn, after a run of operations. */
  function RunAll(s: StoreState, ops: seq<Operation>, newCaseId: nat -> string): (Current, nat) {
    if ops == [] then (AsV4(s), 0)
    else
      var (before, n) := RunAll(s, ops[..|ops| - 1], newCaseId);
      Perform(before, ops[|ops| - 1], n, newCaseId)
  }

  /** The as-built events a run has added to the outbox it started with. */
  function Added(before: Current, after: Current): seq<Event>
    requires before.outbox <= after.outbox
  {
    AsBuiltEvents(after.outbox[|before.outbox|..])
  }

  lemma ResolveReplays(s: Current)
    ensures Skeletons(ResolvedCases(s.asBuiltCases)) == Skeletons(s.asBuiltCases)
  {
  }

  lemma EntriesAdded(before: seq<OutboxEntry>, events: seq<Event>, newEventId: nat -> string, occurredAt: string)
    ensures AsBuiltEvents((before + Entries(events, newEventId, occurredAt))[|before|..]) == events
  {
    var entries := Entries(events, newEventId, occurredAt);
    EventsOfEntries([], events, newEventId, occurredAt);
    assert (before + entries)[|before|..] == entries == [] + entries;
  }

  lemma PerformReplays(s: Current, op: Operation, n: nat, newCaseId: nat -> string)
    ensures var t := Perform(s, op, n, newCaseId).0;
            && s.outbox <= t.outbox
            && Skeletons(t.asBuiltCases) == ReplayFrom(Skeletons(s.asBuiltCases), Added(s, t))
            && t.envelope == s.envelope
  {
    hide TakeAll, ReplayOne, Skeletons, RecordedFindingIds, AsBuiltEvents, Entries, ResolvedCases, ResultsOf;
    var t := Perform(s, op, n, newCaseId).0;
    if op.ResolveOpen? {
      assert t.outbox[|s.outbox|..] == [];
      NoEvents();
      ResolveReplays(s);
    } else {
      var start := StartBatch(s.asBuiltCases, n);
      TakeAllReplays(start, ResultsOf(op), newCaseId);
      var events := TakeAll(start, ResultsOf(op), newCaseId).recorded;
      assert events[0..] == events;
      EntriesAdded(s.outbox, events, op.newEventId, op.occurredAt);
    }
  }

  lemma NoEvents()
    ensures AsBuiltEvents([]) == []
  {
  }

  lemma {:induction false} EventsConcat(a: seq<OutboxEntry>, b: seq<OutboxEntry>)
    ensures AsBuiltEvents(a + b) == AsBuiltEvents(a) + AsBuiltEvents(b)
  {
    if b == [] {
      assert a + b == a;
    } else {
      EventsConcat(a, b[..|b| - 1]);
      assert (a + b)[..|a + b| - 1] == a + b[..|b| - 1];
    }
  }

  /** The outbox is a complete record: over any run of the three operations the as-built
      cases are the replay, on the cases the run began with, of the events it added. */
  lemma {:induction false} RunReplays(s: StoreState, ops: seq<Operation>, newCaseId: nat -> string)
    ensures var t := RunAll(s, ops, newCaseId).0;
            && AsV4(s).outbox <= t.outbox
            && t.envelope == AsV4(s).envelope
            && Skeletons(t.asBuiltCases) == ReplayFrom(Skeletons(AsV4(s).asBuiltCases), Added(AsV4(s), t))
  {
    hide Perform;
    var s0 := AsV4(s);
    var t := RunAll(s, ops, newCaseId).0;
    if ops == [] {
      assert t.outbox[|s0.outbox|..] == [];
    } else {
      RunReplays(s, ops[..|ops| - 1], newCaseId);
      var (m, n) := RunAll(s, ops[..|ops| - 1], newCaseId);
      PerformReplays(m, ops[|ops| - 1], n, newCaseId);
      assert t.outbox[|s0.outbox|..] == m.outbox[|s0.outbox|..] + t.outbox[|m.outbox|..];
      EventsConcat(m.outbox[|s0.outbox|..], t.outbox[|m.outbox|..]);
      ReplayConcat(Skeletons(s0.asBuiltCases), Added(s0, m), Added(m, t));
    }
  }

  // ---------- which results are recorded ----------

  function IdsOf(rs: seq<Result>): set<string> {
    set r | r in rs :: r.source.findingId
  }

  lemma {:induction false} SeenExactly(b: Batch, rs: seq<Result>, newCaseId: nat -> string)
    ensures TakeAll(b, rs, newCaseId).seen == b.seen + IdsOf(rs)
  {
    if rs == [] {
    } else {
      var n := |rs| - 1;
      SeenExactly(b, rs[..n], newCaseId);
      assert rs == rs[..n] + [rs[n]];
    }
  }

  function IdSet(cases: seq<Case>): set<string> {
    set c | c in cases :: c.id
  }

  /** The ids drawn from the `n`-th on, `count` of them. */
  function DrawnIds(newCaseId: nat -> string, n: nat, count: nat): set<string> {
    set i | n <= i < n + count :: StampedCaseId(newCaseId, i)
  }

  /** Result `k` is the first of the call for its finding, which the store does not have. */
  predicate IsFirst(cases: seq<Case>, rs: seq<Result>, k: nat)
    requires k < |rs|
  {
    && rs[k].source.findingId !in RecordedFindingIds(cases)
    && forall j :: 0 <= j < k ==> rs[j].source.findingId != rs[k].source.findingId
  }

  /** How many ids have been drawn when the turn comes to result `k`. */
  function Drawn(cases: seq<Case>, rs: seq<Result>, k: nat): nat
    requires k <= |rs|
  {
    if k == 0 then 0
    else Drawn(cases, rs, k - 1) + (if !IsLinked(rs[k - 1].relation) && IsFirst(cases, rs, k - 1) then 1 else 0)
  }

  predicate IsRecorded(cases: seq<Case>, rs: seq<Result>, k: nat, n: nat, newCaseId: nat -> string)
    requires k < |rs|
  {
    && IsFirst(cases, rs, k)
    && (IsLinked(rs[k].relation) ==>
          && rs[k].priorCaseId.Some?
          && rs[k].priorCaseId.value in IdSet(cases) + DrawnIds(newCaseId, n, Drawn(cases, rs, k)))
  }

  lemma FirstIsUnseen(cases: seq<Case>, rs: seq<Result>, k: nat, n: nat, newCaseId: nat -> string)
    requires k < |rs|
    ensures rs[k].source.findingId in TakeAll(StartBatch(cases, n), rs[..k], newCaseId).seen <==> !IsFirst(cases, rs, k)
  {
    hide TakeAll, RecordedFindingIds;
    SeenExactly(StartBatch(cases, n), rs[..k], newCaseId);
    assert rs[k].source.findingId in IdsOf(rs[..k]) <==> exists j :: 0 <= j < k && rs[j].source.findingId == rs[k].source.findingId;
  }

  lemma IdsAfter(b: Batch, r: Result, newCaseId: nat -> string)
    ensures var t := Take(b, r, newCaseId);
            if !IsLinked(r.relation) && r.source.findingId !in b.seen then
              t.generated == b.generated + 1 && IdSet(t.cases) == IdSet(b.cases) + {StampedCaseId(newCaseId, b.generated)}
            else
              t.generated == b.generated && IdSet(t.cases) == IdSet(b.cases)
  {
    hide StampedCaseId;
    var t := Take(b, r, newCaseId);
    forall i | 0 <= i < |b.cases|
      ensures b.cases[i].id in IdSet(t.cases)
    {
      assert t.cases[i] in t.cases && t.cases[i].id == b.cases[i].id;
    }
    forall c | c in t.cases
      ensures c.id in IdSet(b.cases) || (c == t.cases[|t.cases| - 1] && |t.cases| > |b.cases|)
    {
      var i :| 0 <= i < |t.cases| && t.cases[i] == c;
      assert i < |b.cases| ==> b.cases[i] in b.cases && b.cases[i].id == c.id;
    }
    assert |t.cases| > |b.cases| ==> t.cases[|t.cases| - 1] in t.cases;
  }

  /** Which cases there are when the turn comes to result `k`: those of the store and one for
      each id drawn so far. */
  lemma {:induction false} IdsExactly(cases: seq<Case>, rs: seq<Result>, k: nat, n: nat, newCaseId: nat -> string)
    requires k <= |rs|
    ensures var b := TakeAll(StartBatch(cases, n), rs[..k], newCaseId);
            && b.generated == n + Drawn(cases, rs, k)
            && IdSet(b.cases) == IdSet(cases) + DrawnIds(newCaseId, n, Drawn(cases, rs, k))
    decreases k
  {
    hide Take, IdSet, StampedCaseId, RecordedFindingIds, IsFirst;
    if k == 0 {
    } else {
      IdsExactly(cases, rs, k - 1, n, newCaseId);
      FirstIsUnseen(cases, rs, k - 1, n, newCaseId);
      assert rs[..k][..k - 1] == rs[..k - 1];
      var b := TakeAll(StartBatch(cases, n), rs[..k - 1], newCaseId);
      IdsAfter(b, rs[k - 1], newCaseId);
    }
  }

  /** A result is recorded exactly when its finding is not in the store, no earlier result of
      the call carries its finding id, and, if it is linked, the case it names is one of the
      store or one opened by an earlier result; an unlinked one gets the next id.  An earlier
      result shadows a later one even when it was itself dropped. */
  lemma RecordedExactly(cases: seq<Case>, rs: seq<Result>, k: nat, n: nat, newCaseId: nat -> string)
    requires k < |rs|
    ensures TakeAll(StartBatch(cases, n), rs[..k + 1], newCaseId).recorded ==
            TakeAll(StartBatch(cases, n), rs[..k], newCaseId).recorded +
            (if !IsRecorded(cases, rs, k, n, newCaseId) then []
             else if IsLinked(rs[k].relation) then [EventFor(rs[k], rs[k].priorCaseId.value)]
             else [EventFor(rs[k], StampedCaseId(newCaseId, n + Drawn(cases, rs, k)))])
  {
    hide StampedCaseId, RecordedFindingIds, IsFirst, DrawnIds, Drawn;
    assert rs[..k + 1][..k] == rs[..k];
    FirstIsUnseen(cases, rs, k, n, newCaseId);
    IdsExactly(cases, rs, k, n, newCaseId);
    var b := TakeAll(StartBatch(cases, n), rs[..k], newCaseId);
    if IsLinked(rs[k].relation) && rs[k].priorCaseId.Some? {
      InIdSet(b.cases, rs[k].priorCaseId.value);
    }
  }

  lemma InIdSet(cases: seq<Case>, id: string)
    ensures id in IdSet(cases) <==> IndexOf(cases, id) >= 0
  {
  }

  /** The shadow at work: a result linked to a case that does not exist, then a new one for the
      same finding; neither is recorded and no case is opened. */
  lemma DroppedResultHides(f: Finding, absent: string, n: nat, newCaseId: nat -> string)
    ensures var rs := [Result(f, Same, "", Some(absent), None), Result(f, New, "", None, None)];
            TakeAll(StartBatch([], n), rs, newCaseId) == Batch([], {f.findingId}, [], n)
  {
    var first, second := Result(f, Same, "", Some(absent), None), Result(f, New, "", None, None);
    var b := StartBatch([], n);
    assert b == Batch([], {}, [], n);
    assert [first, second][..1] == [first] && [first][..0] == [];
    assert TakeAll(b, [first], newCaseId) == Take(b, first, newCaseId) == Batch([], {f.findingId}, [], n);
  }

  // ---------- what every operation keeps ----------

  predicate HasSource(cases: seq<Case>, i: int, a: int) {
    0 <= i < |cases| && 0 <= a < |cases[i].sources|
  }

  function IdAt(cases: seq<Case>, i: int, a: int): string
    requires HasSource(cases, i, a)
  {
    cases[i].sources[a].finding.findingId
  }

  /** No finding is recorded twice, in one case or in two. */
  ghost predicate DistinctFindings(cases: seq<Case>) {
    forall i, a, j, b :: HasSource(cases, i, a) && HasSource(cases, j, b) && IdAt(cases, i, a) == IdAt(cases, j, b) ==>
                           i == j && a == b
  }

  function Recurrences(sources: seq<Source>): nat {
    if sources == [] then 0
    else Recurrences(sources[..|sources| - 1]) + (if sources[|sources| - 1].relation == Recurrence then 1 else 0)
  }

  /** A case that other events opened counts one more than the recurrences since. */
  predicate Counted(c: Case) {
    c.sources != [] && c.recurrenceCount == 1 + Recurrences(c.sources)
  }

  predicate AllCounted(cases: seq<Case>) {
    forall i :: 0 <= i < |cases| ==> Counted(cases[i])
  }

  /** Every case of `before` is still there, at its place, with all its sources. */
  predicate Retained(before: seq<Case>, after: seq<Case>) {
    && |before| <= |after|
    && forall i :: 0 <= i < |before| ==>
         && after[i].id == before[i].id
         && before[i].sources <= after[i].sources
         && after[i].repairTaskIds == before[i].repairTaskIds
         && after[i].changedFrom == before[i].changedFrom
  }

  ghost predicate FindingsKept(b: Batch) {
    && DistinctFindings(b.cases)
    && forall i, a :: HasSource(b.cases, i, a) ==> IdAt(b.cases, i, a) in b.seen
  }

  /** Where the sources of a batch stand after one result: as before, but for at most one new
      source, which carries the result's finding id. */
  lemma TakeMovesNothing(b: Batch, r: Result, newCaseId: nat -> string, i: int, a: int)
    requires HasSource(Take(b, r, newCaseId).cases, i, a)
    ensures var t := Take(b, r, newCaseId);
            if HasSource(b.cases, i, a) then IdAt(t.cases, i, a) == IdAt(b.cases, i, a)
            else
              && r.source.findingId !in b.seen && IdAt(t.cases, i, a) == r.source.findingId
              && forall j, c :: HasSource(t.cases, j, c) && !HasSource(b.cases, j, c) ==> j == i && c == a
  {
  }

  lemma TakeKeepsFindings(b: Batch, r: Result, newCaseId: nat -> string)
    requires FindingsKept(b)
    ensures FindingsKept(Take(b, r, newCaseId))
  {
    hide Take;
    var t := Take(b, r, newCaseId);
    TakeMarks(b, r, newCaseId);
    forall i, a | HasSource(t.cases, i, a)
      ensures IdAt(t.cases, i, a) in t.seen
    {
      TakeMovesNothing(b, r, newCaseId, i, a);
    }
    forall i, a, j, c | HasSource(t.cases, i, a) && HasSource(t.cases, j, c) && IdAt(t.cases, i, a) == IdAt(t.cases, j, c)
      ensures i == j && a == c
    {
      TakeMovesNothing(b, r, newCaseId, i, a);
      TakeMovesNothing(b, r, newCaseId, j, c);
    }
  }

  lemma TakeMarks(b: Batch, r: Result, newCaseId: nat -> string)
    ensures Take(b, r, newCaseId).seen == b.seen + {r.source.findingId}
  {
  }

  lemma TakeKeepsCounts(b: Batch, r: Result, newCaseId: nat -> string)
    requires AllCounted(b.cases)
    ensures AllCounted(Take(b, r, newCaseId).cases) && Retained(b.cases, Take(b, r, newCaseId).cases)
  {
    var t := Take(b, r, newCaseId);
    forall i | 0 <= i < |t.cases|
      ensures Counted(t.cases[i])
    {
      if i < |b.cases| {
        assert Counted(b.cases[i]);
        var sources := b.cases[i].sources;
        assert (sources + [SourceFor(r)])[..|sources|] == sources;
      } else {
        assert Recurrences([SourceFor(r)][..0]) == 0;
      }
    }
  }

  lemma {:induction false} TakeAllKeeps(b: Batch, rs: seq<Result>, newCaseId: nat -> string)
    requires FindingsKept(b) && AllCounted(b.cases)
    ensures var t := TakeAll(b, rs, newCaseId);
            FindingsKept(t) && AllCounted(t.cases) && Retained(b.cases, t.cases)
  {
    hide FindingsKept, AllCounted, Take;
    if rs == [] {
    } else {
      var n := |rs| - 1;
      TakeAllKeeps(b, rs[..n], newCaseId);
      TakeKeepsFindings(TakeAll(b, rs[..n], newCaseId), rs[n], newCaseId);
      TakeKeepsCounts(TakeAll(b, rs[..n], newCaseId), rs[n], newCaseId);
    }
  }

  lemma StartKept(cases: seq<Case>, n: nat)
    requires DistinctFindings(cases)
    ensures FindingsKept(StartBatch(cases, n))
  {
    forall i, a | HasSource(cases, i, a)
      ensures IdAt(cases, i, a) in RecordedFindingIds(cases)
    {
      assert cases[i] in cases && cases[i].sources[a] in cases[i].sources;
    }
  }

  lemma ResolveKeeps(cases: seq<Case>)
    ensures DistinctFindings(cases) ==> DistinctFindings(ResolvedCases(cases))
    ensures AllCounted(cases) ==> AllCounted(ResolvedCases(cases))
    ensures Retained(cases, ResolvedCases(cases))
    ensures forall i :: 0 <= i < |cases| ==> ResolvedCases(cases)[i].status != Open
  {
    var t := ResolvedCases(cases);
    if DistinctFindings(cases) {
      assert forall i, a :: HasSource(t, i, a) ==> HasSource(cases, i, a) && IdAt(t, i, a) == IdAt(cases, i, a);
    }
    if AllCounted(cases) {
      assert forall i :: 0 <= i < |cases| ==> Counted(cases[i]);
    }
  }

  /** Over any run, findings stay pairwise distinct across all cases, every recurrence count
      is one more than the case's recurrences, and no case or source is ever lost. */
  lemma {:induction false} RunKeeps(s: StoreState, ops: seq<Operation>, newCaseId: nat -> string)
    requires DistinctFindings(AsV4(s).asBuiltCases) && AllCounted(AsV4(s).asBuiltCases)
    ensures var t := RunAll(s, ops, newCaseId).0;
            && DistinctFindings(t.asBuiltCases)
            && AllCounted(t.asBuiltCases)
            && Retained(AsV4(s).asBuiltCases, t.asBuiltCases)
  {
    hide DistinctFindings, AllCounted, TakeAll;
    if ops == [] {
    } else {
      var op := ops[|ops| - 1];
      RunKeeps(s, ops[..|ops| - 1], newCaseId);
      var (m, n) := RunAll(s, ops[..|ops| - 1], newCaseId);
      StartKept(m.asBuiltCases, n);
      TakeAllKeeps(StartBatch(m.asBuiltCases, n), ResultsOf(op), newCaseId);
      ResolveKeeps(m.asBuiltCases);
    }
  }

  // ---------- each case against its own events ----------

  function EventsFor(events: seq<Event>, caseId: string): seq<Event> {
    if events == [] then []
    else
      var last := events[|events| - 1];
      EventsFor(events[..|events| - 1], caseId) + (if last.caseId == caseId then [last] else [])
  }

  function EventTraces(events: seq<Event>): (ts: seq<Trace>)
    ensures |ts| == |events| && forall i :: 0 <= i < |events| ==> ts[i] == EventTrace(events[i])
  {
    seq(|events|, i requires 0 <= i < |events| => EventTrace(events[i]))
  }

  predicate DistinctIds(cases: seq<Case>) {
    forall i, j :: 0 <= i < j < |cases| ==> cases[i].id != cases[j].id
  }

  /** No id still to be generated is in use. */
  ghost predicate StillFresh(cases: seq<Case>, events: seq<Event>, n: nat, newCaseId: nat -> string) {
    forall k: nat :: k >= n ==>
      && (forall i :: 0 <= i < |cases| ==> cases[i].id != StampedCaseId(newCaseId, k))
      && EventsFor(events, StampedCaseId(newCaseId, k)) == []
  }

  ghost predicate Injective(newCaseId: nat -> string) {
    forall j: nat, k: nat :: newCaseId(j) == newCaseId(k) ==> j == k
  }

  /** Each case's sources are, in order, the events of its id. */
  predicate SourcesAreEvents(cases: seq<Case>, events: seq<Event>) {
    forall i :: 0 <= i < |cases| ==> Traces(cases[i].sources) == EventTraces(EventsFor(events, cases[i].id))
  }

  ghost predicate CaseByCase(cases: seq<Case>, events: seq<Event>, n: nat, newCaseId: nat -> string) {
    DistinctIds(cases) && SourcesAreEvents(cases, events) && StillFresh(cases, events, n, newCaseId)
  }

  lemma EventsForNext(events: seq<Event>, e: Event, id: string)
    ensures EventsFor(events + [e], id) == EventsFor(events, id) + (if e.caseId == id then [e] else [])
  {
    assert (events + [e])[..|events|] == events;
  }

  lemma StampedInjective(newCaseId: nat -> string, j: nat, k: nat)
    requires Injective(newCaseId) && j != k
    ensures StampedCaseId(newCaseId, j) != StampedCaseId(newCaseId, k)
  {
    assert StampedCaseId(newCaseId, j)[14..] == newCaseId(j);
    assert StampedCaseId(newCaseId, k)[14..] == newCaseId(k);
  }

  lemma LinkKeepsCases(cases: seq<Case>, events: seq<Event>, i: nat, r: Result, n: nat, newCaseId: nat -> string)
    requires CaseByCase(cases, events, n, newCaseId) && i < |cases|
    ensures CaseByCase(cases[i := Extended(cases[i], r)], events + [EventFor(r, cases[i].id)], n, newCaseId)
  {
    var e := EventFor(r, cases[i].id);
    var after := cases[i := Extended(cases[i], r)];
    forall k | 0 <= k < |after|
      ensures Traces(after[k].sources) == EventTraces(EventsFor(events + [e], after[k].id))
    {
      EventsForNext(events, e, cases[k].id);
      assert Traces(cases[k].sources) == EventTraces(EventsFor(events, cases[k].id));
      if k == i {
        assert Traces(after[i].sources) == Traces(cases[i].sources) + [TraceOf(SourceFor(r))];
        assert EventTraces(EventsFor(events, cases[i].id) + [e]) == EventTraces(EventsFor(events, cases[i].id)) + [EventTrace(e)];
      }
    }
    forall k: nat | k >= n
      ensures EventsFor(events + [e], StampedCaseId(newCaseId, k)) == []
    {
      EventsForNext(events, e, StampedCaseId(newCaseId, k));
    }
  }

  lemma OpenKeepsCases(cases: seq<Case>, events: seq<Event>, r: Result, n: nat, newCaseId: nat -> string)
    requires CaseByCase(cases, events, n, newCaseId) && Injective(newCaseId)
    ensures var id := StampedCaseId(newCaseId, n);
            CaseByCase(cases + [Opened(id, r)], events + [EventFor(r, id)], n + 1, newCaseId)
  {
    var id := StampedCaseId(newCaseId, n);
    var e := EventFor(r, id);
    var after := cases + [Opened(id, r)];
    forall k | 0 <= k < |after|
      ensures Traces(after[k].sources) == EventTraces(EventsFor(events + [e], after[k].id))
    {
      EventsForNext(events, e, after[k].id);
      if k < |cases| {
        assert Traces(cases[k].sources) == EventTraces(EventsFor(events, cases[k].id));
      }
    }
    forall k: nat | k >= n + 1
      ensures id != StampedCaseId(newCaseId, k)
      ensures EventsFor(events + [e], StampedCaseId(newCaseId, k)) == []
    {
      StampedInjective(newCaseId, n, k);
      EventsForNext(events, e, StampedCaseId(newCaseId, k));
    }
  }

  lemma {:induction false} TakeAllCaseByCase(before: seq<Event>, b: Batch, rs: seq<Result>, newCaseId: nat -> string)
    requires CaseByCase(b.cases, before + b.recorded, b.generated, newCaseId) && Injective(newCaseId)
    ensures var t := TakeAll(b, rs, newCaseId);
            CaseByCase(t.cases, before + t.recorded, t.generated, newCaseId)
  {
    hide CaseByCase, Extended, Opened, EventFor, StampedCaseId, Injective;
    if rs == [] {
    } else {
      var k := |rs| - 1;
      TakeAllCaseByCase(before, b, rs[..k], newCaseId);
      var m, r := TakeAll(b, rs[..k], newCaseId), rs[k];
      var t := TakeAll(b, rs, newCaseId);
      if |t.recorded| > |m.recorded| {
        assert before + t.recorded == (before + m.recorded) + [t.recorded[|m.recorded|]];
        if IsLinked(r.relation) {
          LinkKeepsCases(m.cases, before + m.recorded, IndexOf(m.cases, r.priorCaseId.value), r, m.generated, newCaseId);
        } else {
          OpenKeepsCases(m.cases, before + m.recorded, r, m.generated, newCaseId);
        }
      }
    }
  }

  /** Event sourcing, case by case: from a store with no as-built cases, and with case ids
      that are fresh, each case's sources are at every time exactly the outbox's as-built
      events for that case, in order, and no two cases share an id. */
  lemma {:induction false} RunCaseByCase(s: StoreState, ops: seq<Operation>, newCaseId: nat -> string)
    requires AsV4(s).asBuiltCases == [] && Injective(newCaseId)
    requires forall k: nat :: EventsFor(AsBuiltEvents(AsV4(s).outbox), StampedCaseId(newCaseId, k)) == []
    ensures var (t, n) := RunAll(s, ops, newCaseId);
            CaseByCase(t.asBuiltCases, AsBuiltEvents(t.outbox), n, newCaseId)
  {
    hide Injective, TakeAll, EventsFor, AsBuiltEvents, StampedCaseId, Entries;
    if ops == [] {
    } else {
      var op := ops[|ops| - 1];
      RunCaseByCase(s, ops[..|ops| - 1], newCaseId);
      var (m, n) := RunAll(s, ops[..|ops| - 1], newCaseId);
      if op.ResolveOpen? {
        ResolveCaseByCase(m.asBuiltCases, AsBuiltEvents(m.outbox), n, newCaseId);
      } else {
        var start, events := StartBatch(m.asBuiltCases, n), AsBuiltEvents(m.outbox);
        assert events + start.recorded == events;
        TakeAllCaseByCase(events, start, ResultsOf(op), newCaseId);
        EventsOfEntries(m.outbox, TakeAll(start, ResultsOf(op), newCaseId).recorded, op.newEventId, op.occurredAt);
      }
    }
  }

  lemma ResolveCaseByCase(cases: seq<Case>, events: seq<Event>, n: nat, newCaseId: nat -> string)
    requires CaseByCase(cases, events, n, newCaseId)
    ensures CaseByCase(ResolvedCases(cases), events, n, newCaseId)
  {
    var after := ResolvedCases(cases);
    forall i | 0 <= i < |cases|
      ensures Traces(after[i].sources) == EventTraces(EventsFor(events, after[i].id))
    {
      assert Traces(cases[i].sources) == EventTraces(EventsFor(events, cases[i].id));
    }
  }
}
