/** As-built remediation cases: three operations on the case store, each of which pairs the
    cases it changes with events in the store's outbox. */
module CaseReconciliation {
  import opened Json

  datatype Class = Remediable | Design

  datatype GoverningReference = AdrDecision(stem: string, decision: int) | PlanTask(taskId: string)

  datatype Relation = Same | Recurrence | MateriallyChanged | New | NeedsHuman

  datatype Status = Open | Resolved | AwaitingHuman

  datatype Finding = Finding(
    findingId: string,
    attemptId: string,
    class_: Class,
    reference: Option<GoverningReference>,
    summary: string)

  /** A planning result; the planner never answers `NeedsHuman`. */
  datatype Result = Result(
    source: Finding,
    relation: Relation,
    reason: string,
    priorCaseId: Option<string>,
    repairTaskIds: Option<seq<string>>)

  datatype Source = Source(finding: Finding, relation: Relation, reason: string, priorCaseId: Option<string>)

  datatype Case = Case(
    id: string,
    sources: seq<Source>,
    status: Status,
    repairTaskIds: seq<string>,
    changedFrom: Option<string>,
    recurrenceCount: nat)

  datatype Event = Event(
    findingId: string,
    caseId: string,
    attemptId: string,
    outcome: Relation,
    priorCaseId: Option<string>,
    reason: string)

  /** An outbox entry of this domain, or one of another domain that nothing here looks into. */
  datatype OutboxEntry =
    | AsBuiltEntry(eventId: string, occurredAt: string, event: Event)
    | OtherEntry(content: string)

  /** The parts of the store's envelope that these operations pass through. */
  datatype Envelope = Envelope(feature: string, cases: seq<string>, prdWideningCases: seq<string>, suppressions: seq<string>)

  datatype StoreState =
    | V1(envelope: Envelope)
    | V2(envelope: Envelope)
    | V3(envelope: Envelope, outbox: seq<OutboxEntry>)
    | V4(envelope: Envelope, asBuiltCases: seq<Case>, outbox: seq<OutboxEntry>)

  type Current = s: StoreState | s.V4? witness V4(Envelope("", [], [], []), [], [])

  function AsV4(s: StoreState): Current {
    match s
    case V1(e) => V4(e.(prdWideningCases := []), [], [])
    case V2(e) => V4(e, [], [])
    case V3(e, outbox) => V4(e, [], outbox)
    case V4(_, _, _) => s
  }

  // ---------- one result ----------

  /** The state of one reconciliation between two results. */
  datatype Batch = Batch(cases: seq<Case>, seen: set<string>, recorded: seq<Event>, generated: nat)

  function StampedCaseId(newCaseId: nat -> string, n: nat): string {
    "as-built-case:" + newCaseId(n)
  }

  function CaseIds(cases: seq<Case>): (ids: seq<string>)
    ensures |ids| == |cases| && forall i :: 0 <= i < |cases| ==> ids[i] == cases[i].id
  {
    seq(|cases|, i requires 0 <= i < |cases| => cases[i].id)
  }

  /** The index of the first case with an id, or -1. */
  function IndexOf(cases: seq<Case>, id: string): (i: int)
    ensures -1 <= i < |cases|
    ensures i >= 0 ==> cases[i].id == id && forall k :: 0 <= k < i ==> cases[k].id != id
    ensures i < 0 ==> forall k :: 0 <= k < |cases| ==> cases[k].id != id
  {
    Position(CaseIds(cases), id)
  }

  predicate IsLinked(relation: Relation) {
    relation == Same || relation == Recurrence
  }

  function SourceFor(r: Result): Source {
    Source(r.source, r.relation, r.reason, r.priorCaseId)
  }

  function EventFor(r: Result, caseId: string): Event {
    Event(r.source.findingId, caseId, r.source.attemptId, r.relation, r.priorCaseId, r.reason)
  }

  function Extended(c: Case, r: Result): Case {
    c.(status := Open, sources := c.sources + [SourceFor(r)],
       recurrenceCount := c.recurrenceCount + (if r.relation == Recurrence then 1 else 0))
  }

  function Opened(id: string, r: Result): Case {
    Case(id, [SourceFor(r)],
         if r.relation == NeedsHuman then AwaitingHuman else Open,
         if r.repairTaskIds.Some? then r.repairTaskIds.value else [],
         if r.relation == MateriallyChanged then r.priorCaseId else None,
         1)
  }

  /** What one result does: a finding seen before is passed over; a linked result extends the
      case it names, if there is one; any other opens a case. */
  function Take(b: Batch, r: Result, newCaseId: nat -> string): Batch {
    if r.source.findingId in b.seen then b
    else
      var marked := b.(seen := b.seen + {r.source.findingId});
      if IsLinked(r.relation) then
        if r.priorCaseId.None? then marked
        else
          var i := IndexOf(b.cases, r.priorCaseId.value);
          if i < 0 then marked
          else marked.(cases := b.cases[i := Extended(b.cases[i], r)],
                       recorded := b.recorded + [EventFor(r, r.priorCaseId.value)])
      else
        var id := StampedCaseId(newCaseId, b.generated);
        marked.(cases := b.cases + [Opened(id, r)],
                recorded := b.recorded + [EventFor(r, id)],
                generated := b.generated + 1)
  }

  function TakeAll(b: Batch, rs: seq<Result>, newCaseId: nat -> string): Batch {
    if rs == [] then b
    else Take(TakeAll(b, rs[..|rs| - 1], newCaseId), rs[|rs| - 1], newCaseId)
  }

  function FindingIds(c: Case): set<string> {
    set s | s in c.sources :: s.finding.findingId
  }

  function RecordedFindingIds(cases: seq<Case>): set<string> {
    set c, s | c in cases && s in c.sources :: s.finding.findingId
  }

  function StartBatch(cases: seq<Case>, generated: nat): Batch {
    Batch(cases, RecordedFindingIds(cases), [], generated)
  }

  function HumanResult(f: Finding, reason: string): Result {
    Result(f, NeedsHuman, reason, None, None)
  }

  function HumanResults(fs: seq<Finding>, reason: string): seq<Result> {
    seq(|fs|, i requires 0 <= i < |fs| => HumanResult(fs[i], reason))
  }

  function Entries(events: seq<Event>, newEventId: nat -> string, occurredAt: string): (es: seq<OutboxEntry>)
    ensures |es| == |events| && forall i :: 0 <= i < |es| ==> es[i].AsBuiltEntry? && es[i].event == events[i]
  {
    seq(|events|, i requires 0 <= i < |events| => AsBuiltEntry(newEventId(i), occurredAt, events[i]))
  }

  // ---------- the three operations ----------

  datatype Operation =
    | Reconcile(results: seq<Result>, newEventId: nat -> string, occurredAt: string)
    | NeedHuman(findings: seq<Finding>, reason: string, newEventId: nat -> string, occurredAt: string)
    | ResolveOpen

  function ResolvedCase(c: Case): Case {
    if c.status == Open then c.(status := Resolved) else c
  }

  function ResolvedCases(cases: seq<Case>): (r: seq<Case>)
    ensures |r| == |cases| && forall i :: 0 <= i < |cases| ==> r[i] == ResolvedCase(cases[i])
  {
    seq(|cases|, i requires 0 <= i < |cases| => ResolvedCase(cases[i]))
  }

  function ResultsOf(op: Operation): seq<Result> {
    match op
    case Reconcile(results, _, _) => results
    case NeedHuman(findings, reason, _, _) => HumanResults(findings, reason)
    case ResolveOpen => []
  }

  /** What an operation does to the store, the `n`-th generated case id being the next. */
  function Perform(s: StoreState, op: Operation, n: nat, newCaseId: nat -> string): (Current, nat) {
    var current := AsV4(s);
    if op.ResolveOpen? then (current.(asBuiltCases := ResolvedCases(current.asBuiltCases)), n)
    else
      var b := TakeAll(StartBatch(current.asBuiltCases, n), ResultsOf(op), newCaseId);
      (current.(asBuiltCases := b.cases, outbox := current.outbox + Entries(b.recorded, op.newEventId, op.occurredAt)), b.generated)
  }

  /** Reconciles planning results, keeping the case list and the set of recorded findings in
      local variables. */
  method RecordAsBuiltReconciliation(state: StoreState, results: seq<Result>, newCaseId: nat -> string, generated: nat,
                                     newEventId: nat -> string, occurredAt: string)
    returns (next: Current, recordedSources: seq<Event>, used: nat)
    requires forall r :: r in results ==> r.relation != NeedsHuman
    ensures (next, used) == Perform(state, Reconcile(results, newEventId, occurredAt), generated, newCaseId)
    ensures recordedSources == TakeAll(StartBatch(AsV4(state).asBuiltCases, generated), results, newCaseId).recorded
  {
    var current := AsV4(state);
    var existingFindingIds := RecordedFindingIds(current.asBuiltCases);
    var cases := current.asBuiltCases;
    recordedSources := [];
    used := generated;
    for k := 0 to |results|
      invariant Batch(cases, existingFindingIds, recordedSources, used)
             == TakeAll(StartBatch(current.asBuiltCases, generated), results[..k], newCaseId)
    {
      assert results[..k + 1][..k] == results[..k];
      var result := results[k];
      if result.source.findingId in existingFindingIds {
        continue;
      }
      existingFindingIds := existingFindingIds + {result.source.findingId};
      var linked := IsLinked(result.relation);
      var caseId := result.priorCaseId;
      if !linked {
        caseId := Some(StampedCaseId(newCaseId, used));
        used := used + 1;
      }
      if caseId.None? {
        continue;
      }
      if linked {
        var index := IndexOf(cases, caseId.value);
        if index < 0 {
          continue;
        }
        cases := cases[index := Extended(cases[index], result)];
      } else {
        cases := cases + [Opened(caseId.value, result)];
      }
      recordedSources := recordedSources + [EventFor(result, caseId.value)];
    }
    assert results[..|results|] == results;
    next := current.(asBuiltCases := cases, outbox := current.outbox + Entries(recordedSources, newEventId, occurredAt));
  }

  /** Records findings that a human must decide, one case each. */
  method RecordAsBuiltNeedsHuman(state: StoreState, findings: seq<Finding>, reason: string, newCaseId: nat -> string, generated: nat,
                                 newEventId: nat -> string, occurredAt: string)
    returns (next: Current, recordedSources: seq<Event>, used: nat)
    ensures (next, used) == Perform(state, NeedHuman(findings, reason, newEventId, occurredAt), generated, newCaseId)
    ensures recordedSources == TakeAll(StartBatch(AsV4(state).asBuiltCases, generated), HumanResults(findings, reason), newCaseId).recorded
  {
    var current := AsV4(state);
    var existingFindingIds := RecordedFindingIds(current.asBuiltCases);
    var cases := current.asBuiltCases;
    recordedSources := [];
    used := generated;
    ghost var results := HumanResults(findings, reason);
    for k := 0 to |findings|
      invariant Batch(cases, existingFindingIds, recordedSources, used)
             == TakeAll(StartBatch(current.asBuiltCases, generated), results[..k], newCaseId)
    {
      assert results[..k + 1][..k] == results[..k];
      var finding := findings[k];
      if finding.findingId in existingFindingIds {
        continue;
      }
      existingFindingIds := existingFindingIds + {finding.findingId};
      var caseId := StampedCaseId(newCaseId, used);
      used := used + 1;
      cases := cases + [Case(caseId, [Source(finding, NeedsHuman, reason, None)], AwaitingHuman, [], None, 1)];
      recordedSources := recordedSources + [Event(finding.findingId, caseId, finding.attemptId, NeedsHuman, None, reason)];
    }
    assert results[..|findings|] == results;
    next := current.(asBuiltCases := cases, outbox := current.outbox + Entries(recordedSources, newEventId, occurredAt));
  }
}
