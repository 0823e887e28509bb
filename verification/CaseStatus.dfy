/** The status of every as-built case after any run, and what its sources carry. */
module CaseStatus {
  import opened Json
  import opened CaseReconciliation
  import opened CaseReplay

  // ---------- one operation ----------

  /** A finding that a human must decide opened the case, and nothing was linked to it since. */
  predicate HumanOnly(c: Case) {
    |c.sources| == 1 && c.sources[0].relation == NeedsHuman
  }

  /** The case records what `r` says, word for word. */
  predicate Records(s: Source, r: Result) {
    && s.finding == r.source
    && s.relation == r.relation
    && s.reason == r.reason
    && s.priorCaseId == r.priorCaseId
  }

  predicate RecordsOneOf(s: Source, rs: seq<Result>) {
    exists r :: r in rs && Records(s, r)
  }

  /** A case that was there before: untouched, or open again with sources of these results
      behind its own. */
  predicate Continued(c: Case, d: Case, rs: seq<Result>) {
    || d == c
    || (&& d.status == Open
        && |c.sources| < |d.sources| && d.sources[..|c.sources|] == c.sources
        && (forall k :: |c.sources| <= k < |d.sources| ==> RecordsOneOf(d.sources[k], rs) && IsLinked(d.sources[k].relation))
        && d.id == c.id && d.repairTaskIds == c.repairTaskIds && d.changedFrom == c.changedFrom)
  }

  /** A case that one of these results opened: waiting for a human when that is all there is to
      it, and open otherwise, with the repair tasks the result names. */
  predicate Begun(d: Case, rs: seq<Result>) {
    && d.sources != []
    && d.status == (if HumanOnly(d) then AwaitingHuman else Open)
    && (exists r :: r in rs && Records(d.sources[0], r) && !IsLinked(r.relation)
                  && d.repairTaskIds == (if r.repairTaskIds.Some? then r.repairTaskIds.value else [])
                  && d.changedFrom == (if r.relation == MateriallyChanged then r.priorCaseId else None))
    && (forall k :: 0 < k < |d.sources| ==> RecordsOneOf(d.sources[k], rs) && IsLinked(d.sources[k].relation))
  }

  predicate CasesFollow(before: seq<Case>, after: seq<Case>, rs: seq<Result>) {
    && |before| <= |after|
    && (forall i :: 0 <= i < |before| ==> Continued(before[i], after[i], rs))
    && (forall i :: |before| <= i < |after| ==> Begun(after[i], rs))
  }

  lemma MoreResults(c: Case, d: Case, rs: seq<Result>, r: Result)
    ensures Continued(c, d, rs) ==> Continued(c, d, rs + [r])
    ensures Begun(d, rs) ==> Begun(d, rs + [r])
  {
    assert forall s :: s in rs ==> s in rs + [r];
    assert forall s :: RecordsOneOf(s, rs) ==> RecordsOneOf(s, rs + [r]);
  }

  lemma LinkedOnce(c: Case, d: Case, rs: seq<Result>, r: Result)
    requires IsLinked(r.relation)
    ensures Continued(c, d, rs) ==> Continued(c, Extended(d, r), rs + [r])
    ensures Begun(d, rs) ==> Begun(Extended(d, r), rs + [r])
  {
    hide IsLinked;
    MoreResults(c, d, rs, r);
    var e := Extended(d, r);
    assert r in rs + [r] && Records(e.sources[|d.sources|], r);
    assert RecordsOneOf(e.sources[|d.sources|], rs + [r]);
    assert forall k :: 0 <= k < |d.sources| ==> e.sources[k] == d.sources[k];
  }

  lemma OpenedOnce(id: string, rs: seq<Result>, r: Result)
    requires !IsLinked(r.relation)
    ensures Begun(Opened(id, r), rs + [r])
  {
    assert r in rs + [r] && Records(Opened(id, r).sources[0], r);
  }

  lemma {:induction false} TakeAllFollows(b: Batch, rs: seq<Result>, newCaseId: nat -> string)
    ensures CasesFollow(b.cases, TakeAll(b, rs, newCaseId).cases, rs)
  {
    hide Continued, Begun, Extended, Opened, IsLinked;
    if rs == [] {
      forall c: Case
        ensures Continued(c, c, [])
      {
        Unchanged(c);
      }
    } else {
      var n := |rs| - 1;
      var r, m, t := rs[n], TakeAll(b, rs[..n], newCaseId), TakeAll(b, rs, newCaseId);
      TakeAllFollows(b, rs[..n], newCaseId);
      assert rs == rs[..n] + [r];
      forall i | 0 <= i < |t.cases|
        ensures if i < |b.cases| then Continued(b.cases[i], t.cases[i], rs) else Begun(t.cases[i], rs)
      {
        if i < |m.cases| {
          var c := if i < |b.cases| then b.cases[i] else m.cases[i];
          MoreResults(c, m.cases[i], rs[..n], r);
          if t.cases[i] != m.cases[i] {
            LinkedOnce(c, m.cases[i], rs[..n], r);
          }
        } else {
          OpenedOnce(t.cases[i].id, rs[..n], r);
          assert t.cases[i] == Opened(t.cases[i].id, r) by {
            OpenedId(StampedCaseId(newCaseId, m.generated), r);
          }
        }
      }
    }
  }

  lemma Unchanged(c: Case)
    ensures Continued(c, c, [])
  {
  }

  lemma OpenedId(id: string, r: Result)
    ensures Opened(id, r).id == id
  {
  }

  /** Resolving turns the open cases into resolved ones and changes nothing else. */
  predicate OnlyResolved(before: seq<Case>, after: seq<Case>) {
    && |after| == |before|
    && forall i :: 0 <= i < |before| ==>
         after[i] == if before[i].status == Open then before[i].(status := Resolved) else before[i]
  }

  /** What one operation does to the cases of any store. */
  lemma OperationFollows(s: StoreState, op: Operation, n: nat, newCaseId: nat -> string)
    ensures var before, after := AsV4(s).asBuiltCases, Perform(s, op, n, newCaseId).0.asBuiltCases;
            if op.ResolveOpen? then OnlyResolved(before, after) else CasesFollow(before, after, ResultsOf(op))
  {
    hide CasesFollow;
    if !op.ResolveOpen? {
      TakeAllFollows(StartBatch(AsV4(s).asBuiltCases, n), ResultsOf(op), newCaseId);
    }
  }

  /** What the current version keeps of a store of any version: the feature, the cases and the
      suppressions of all, the widening cases of all but the first, the outbox of those that
      have one, and the as-built cases of its own. */
  lemma Upgraded(s: StoreState)
    ensures var t := AsV4(s);
            && t.envelope.feature == s.envelope.feature
            && t.envelope.cases == s.envelope.cases
            && t.envelope.suppressions == s.envelope.suppressions
            && (s.V1? ==> t.envelope.prdWideningCases == [])
            && (!s.V1? ==> t.envelope.prdWideningCases == s.envelope.prdWideningCases)
            && (s.V1? || s.V2? ==> t.outbox == [])
            && (s.V3? || s.V4? ==> t.outbox == s.outbox)
            && (s.V4? ==> t.asBuiltCases == s.asBuiltCases)
            && (!s.V4? ==> t.asBuiltCases == [])
            && AsV4(t) == t
  {
  }

  /** No operation looks into what other domains keep in the store. */
  lemma {:induction false} EnvelopeKept(s: StoreState, ops: seq<Operation>, newCaseId: nat -> string)
    ensures RunAll(s, ops, newCaseId).0.envelope == AsV4(s).envelope
    ensures AsV4(s).outbox <= RunAll(s, ops, newCaseId).0.outbox
  {
    hide TakeAll, StartBatch, Entries;
    if ops == [] {
    } else {
      EnvelopeKept(s, ops[..|ops| - 1], newCaseId);
    }
  }

  // ---------- runs ----------

  /** A case as it stands when `at` were the cases right after the last resolving: waiting for a
      human while that is all there is to it, resolved when it has the sources it had then, and
      open otherwise. */
  predicate Stands(c: Case, at: seq<Case>, i: nat) {
    c.status == if HumanOnly(c) then AwaitingHuman
                else if i < |at| && c.sources == at[i].sources then Resolved
                else Open
  }

  predicate AllStand(cases: seq<Case>, at: seq<Case>) {
    forall i :: 0 <= i < |cases| ==> Stands(cases[i], at, i)
  }

  predicate SomeSource(cases: seq<Case>) {
    forall i :: 0 <= i < |cases| ==> cases[i].sources != []
  }

  predicate Grown(at: seq<Case>, cases: seq<Case>) {
    && |at| <= |cases|
    && forall i :: 0 <= i < |at| ==> at[i].sources <= cases[i].sources
  }

  lemma FollowingStand(at: seq<Case>, before: seq<Case>, after: seq<Case>, rs: seq<Result>)
    requires CasesFollow(before, after, rs) && AllStand(before, at) && Grown(at, before) && SomeSource(before)
    ensures AllStand(after, at) && Grown(at, after) && SomeSource(after)
  {
    forall i | 0 <= i < |after|
      ensures Stands(after[i], at, i) && after[i].sources != [] && (i < |at| ==> at[i].sources <= after[i].sources)
    {
      if i < |before| {
        assert Stands(before[i], at, i);
        assert Continued(before[i], after[i], rs);
      } else {
        assert Begun(after[i], rs);
      }
    }
  }

  lemma ResolvedStand(at: seq<Case>, before: seq<Case>, after: seq<Case>)
    requires OnlyResolved(before, after) && AllStand(before, at) && SomeSource(before)
    ensures AllStand(after, after) && Grown(after, after) && SomeSource(after)
  {
    forall i | 0 <= i < |after|
      ensures Stands(after[i], after, i)
    {
      assert Stands(before[i], at, i);
    }
  }

  /** The cases right after the last resolving of a run, or none when nothing was resolved. */
  function LastResolved(s: StoreState, ops: seq<Operation>, newCaseId: nat -> string): seq<Case> {
    if ops == [] then []
    else if ops[|ops| - 1].ResolveOpen? then RunAll(s, ops, newCaseId).0.asBuiltCases
    else LastResolved(s, ops[..|ops| - 1], newCaseId)
  }

  /** Over any run from a store without as-built cases, the status of every case follows from
      its sources and from what they were at the last resolving. */
  lemma {:induction false} StatusExactly(s: StoreState, ops: seq<Operation>, newCaseId: nat -> string)
    requires AsV4(s).asBuiltCases == []
    ensures var cases, at := RunAll(s, ops, newCaseId).0.asBuiltCases, LastResolved(s, ops, newCaseId);
            AllStand(cases, at) && Grown(at, cases) && SomeSource(cases)
  {
    hide AllStand, Grown, SomeSource, Perform, CasesFollow, OnlyResolved;
    if ops == [] {
      NothingStands();
    } else {
      var init, op := ops[..|ops| - 1], ops[|ops| - 1];
      StatusExactly(s, init, newCaseId);
      var (m, n) := RunAll(s, init, newCaseId);
      var at := LastResolved(s, init, newCaseId);
      var after := RunAll(s, ops, newCaseId).0.asBuiltCases;
      OperationFollows(m, op, n, newCaseId);
      assert AsV4(m) == m;
      if op.ResolveOpen? {
        ResolvedStand(at, m.asBuiltCases, after);
      } else {
        FollowingStand(at, m.asBuiltCases, after, ResultsOf(op));
      }
    }
  }

  lemma NothingStands()
    ensures AllStand([], []) && Grown([], []) && SomeSource([])
  {
  }

  /** A case resolved on an approved pass is open again after a recurrence that names it. */
  lemma RecurrenceReopens(s: StoreState, c: Case, f: Finding, reason: string, n: nat, newCaseId: nat -> string,
                          newEventId: nat -> string, occurredAt: string)
    requires s.V4? && s.asBuiltCases == [c] && c.status == Resolved
    requires forall k :: 0 <= k < |c.sources| ==> c.sources[k].finding.findingId != f.findingId
    ensures var r := Result(f, Recurrence, reason, Some(c.id), None);
            var t := Perform(s, Reconcile([r], newEventId, occurredAt), n, newCaseId).0;
            && |t.asBuiltCases| == 1
            && t.asBuiltCases[0].status == Open
            && t.asBuiltCases[0].sources == c.sources + [Source(f, Recurrence, reason, Some(c.id))]
            && t.asBuiltCases[0].recurrenceCount == c.recurrenceCount + 1
  {
    var r := Result(f, Recurrence, reason, Some(c.id), None);
    var b := StartBatch([c], n);
    assert f.findingId !in b.seen;
    assert [r][..0] == [];
    assert TakeAll(b, [r], newCaseId) == Take(b, r, newCaseId);
    assert [c][0].id == c.id && IndexOf([c], c.id) == 0;
  }
}
