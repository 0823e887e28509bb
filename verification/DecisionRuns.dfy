/** Whole calls of the decision store as functions of the stored file, and what holds over
    runs of them. */
module DecisionRuns {
  import opened Json
  import opened DecisionLog
  import opened DecisionCodec
  import opened DecisionStore

  datatype LeaseOutcome = Granted | TimedOut | Refused

  /** What the lease, the file system and the id generator do during one call. */
  datatype Environment = Environment(
    lease: LeaseOutcome,
    readFails: bool,
    mkdirFails: bool,
    writeFails: bool,
    renameFails: bool,
    removeFails: bool,
    newId: Option<string>,
    temporary: string)
  {
    predicate Replaces() {
      !mkdirFails && !writeFails && !renameFails
    }
  }

  function LeaseFailure(lease: LeaseOutcome): Failure {
    if lease.TimedOut? then LockTimeout else LockFailed
  }

  function Settle<R>(plan: Plan<R>, file: Option<FileText>, env: Environment, platform: Platform): (R, Option<FileText>) {
    match plan
    case Finish(r) => (r, file)
    case Replace(next, onSuccess, onFailure) =>
      if env.Replaces() then (onSuccess, Some(Rendered(platform, next))) else (onFailure, file)
  }

  function AppendEffect(file: Option<FileText>, feature: Feature, input: Doc, env: Environment, platform: Platform):
    (AppendResult, Option<FileText>)
  {
    var e := ParseInput(input);
    if e.None? then (AppendFailed(InvalidDecision), file)
    else if !env.lease.Granted? then (AppendFailed(LeaseFailure(env.lease)), file)
    else Settle(PlanAppend(ReadFile(file, env.readFails), feature, e.value, env.newId), file, env, platform)
  }

  function MigrationEffect(file: Option<FileText>, feature: Feature, sourceId: string, decisions: seq<Doc>,
                           env: Environment, platform: Platform):
    (MigrationResult, Option<FileText>)
  {
    var next := ParseState(ProposedLog(feature, decisions));
    if !next.ReadValid? then (MigrationFailed(MalformedState), file)
    else if !env.lease.Granted? then (MigrationFailed(LeaseFailure(env.lease)), file)
    else Settle(PlanMigration(ReadFile(file, env.readFails), next.state, sourceId, platform), file, env, platform)
  }

  // ---------- exactly when an append changes the log ----------

  predicate IsFresh(s: State, newId: Option<string>) {
    newId.Some? && BoundedReference(newId.value) && forall d :: d in s.decisions ==> d.id != newId.value
  }

  /** An entry is news to a log when it opens a case, or a criterion, that nothing in the
      log repeats, or when it reverses the authority of the very head it names. */
  predicate IsNews(ds: seq<Decision>, e: Entry) {
    var head := Head(ds, e);
    if e.supersedes.None? then
      head < 0 && forall d :: d in ds ==> !Repeats(d, e)
    else
      head >= 0 && e.supersedes == Some(ds[head].Ref()) && e.authority != ds[head].entry.authority
  }

  /** The log grows exactly when the entry is news, the id is usable, the log has room and no
      offer is borrowed from another place.  In particular a revision that names anything
      but the head of its case never changes the log. */
  lemma AppendWritesExactly(s: State, e: Entry, newId: Option<string>)
    requires ValidState(s) && WellFormedEntry(e)
    ensures PlanOnLog(s, e, newId).Replace? <==>
              && IsNews(s.decisions, e)
              && IsFresh(s, newId)
              && |s.decisions| < MAX_DECISIONS
              && !BorrowsOffer(s.decisions, e)
  {
    AdmissibleIsNews(s.decisions, e);
    if Screen(s.decisions, e).Admissible? && IsFresh(s, newId) {
      ClosingCheckExact(s, e, newId.value);
    }
  }

  lemma AdmissibleIsNews(ds: seq<Decision>, e: Entry)
    requires Linked(ds)
    ensures Screen(ds, e).Admissible? <==> IsNews(ds, e)
  {
    var first, head := FirstRepeated(ds, e), Head(ds, e);
    if first >= 0 {
      assert ds[first] in ds;
    }
    if head >= 0 {
      Link(ds, head);
    }
  }

  /** What a write leaves behind: the old log, unchanged, with one valid decision after it. */
  lemma WriteExtends(s: State, e: Entry, newId: Option<string>)
    requires PlanOnLog(s, e, newId).Replace?
    ensures var plan := PlanOnLog(s, e, newId);
            && plan.onSuccess.Appended?
            && plan.onFailure == AppendFailed(AtomicReplaceFailed)
            && plan.next == State(s.feature, s.decisions + [plan.onSuccess.decision])
            && plan.onSuccess.decision.revision == |s.decisions| + 1
            && plan.onSuccess.decision.entry == e
            && ValidState(plan.next)
  {
    AcceptedIsValid(PlanOnLog(s, e, newId).next);
  }

  // ---------- a repeated append is inert ----------

  lemma RevisionBecomesHead(ds: seq<Decision>, d: Decision)
    requires d.entry.origin.Some?
    ensures Head(ds + [d], d.entry) == |ds|
  {
    assert (ds + [d])[|ds|] == d;
  }

  lemma {:induction false} RepeatedFirst(ds: seq<Decision>, d: Decision, from: nat)
    requires from <= |ds| && FirstRepeated(ds, d.entry, from) < 0
    ensures FirstRepeated(ds + [d], d.entry, from) == if Repeats(d, d.entry) then |ds| else -1
    decreases |ds| - from
  {
    assert (ds + [d])[|ds|] == d;
    if from >= |ds| {
    } else {
      assert (ds + [d])[from] == ds[from];
      RepeatedFirst(ds, d, from + 1);
    }
  }

  lemma RepeatIsReplay(ds: seq<Decision>, d: Decision)
    requires Screen(ds, d.entry).Admissible?
    requires d.entry.supersedes.Some? ==> d.entry.origin.Some?
    ensures Screen(ds + [d], d.entry) == Replay(|ds|)
  {
    var es := ds + [d];
    assert es[|ds|] == d;
    RepeatedFirst(ds, d, 0);
    if d.entry.supersedes.Some? {
      RevisionBecomesHead(ds, d);
    }
  }

  /** A plan that succeeds is followed by the plan that answers the same decision, with the
      log as the first plan leaves it and any id. */
  lemma RepeatedPlan(s: State, e: Entry, newId: Option<string>, again: Option<string>)
    ensures match PlanOnLog(s, e, newId)
            case Replace(next, done, _) => PlanOnLog(next, e, again) == Finish(done)
            case Finish(r) => r.Appended? ==> PlanOnLog(s, e, again) == Finish(r)
  {
    if PlanOnLog(s, e, newId).Replace? {
      var d := NewDecision(s.decisions, e, newId.value);
      WriteExtends(s, e, newId);
      assert (s.decisions + [d])[|s.decisions|] == d;
      assert WellFormedDecision(d);
      RepeatIsReplay(s.decisions, d);
    }
  }

  lemma LoadRendered(s: State, platform: Platform)
    requires ValidState(s)
    ensures Load(Contents(Rendered(platform, s)), s.feature) == Present(s)
  {
    StateCodec(PrintState(s), s);
  }

  /** The log an append works on: the stored one, or an empty one when there is no file. */
  function LogOf(loaded: Loaded, feature: Feature): State
    requires !loaded.NotLoaded?
  {
    if loaded.Absent? then State(feature, []) else loaded.state
  }

  lemma AppendFromLog(file: Option<FileText>, feature: Feature, input: Doc, env: Environment, platform: Platform)
    ensures var e, loaded := ParseInput(input), Load(ReadFile(file, env.readFails), feature);
            AppendEffect(file, feature, input, env, platform) ==
            if e.None? then (AppendFailed(InvalidDecision), file)
            else if !env.lease.Granted? then (AppendFailed(LeaseFailure(env.lease)), file)
            else if loaded.NotLoaded? then (AppendFailed(loaded.reason), file)
            else Settle(PlanOnLog(LogOf(loaded, feature), e.value, env.newId), file, env, platform)
  {
    hide ParseInput, Load, PlanOnLog;
  }

  lemma LoadNeedsRead(feature: Feature)
    ensures Load(ReadFailed, feature).NotLoaded?
  {
  }

  lemma LoadedFeature(view: View, feature: Feature)
    ensures Load(view, feature).Present? ==>
              Load(view, feature).state.feature == feature && ValidState(Load(view, feature).state)
  {
    if Load(view, feature).Present? {
      StateCodec(view.text.parsed.value, Load(view, feature).state);
    }
  }

  /** Repeating a successful append at once, whatever id the generator would now give,
      returns the same decision and leaves the stored file as it is. */
  lemma RepeatedAppend(file: Option<FileText>, feature: Feature, input: Doc, env: Environment, again: Environment, platform: Platform)
    requires AppendEffect(file, feature, input, env, platform).0.Appended?
    requires again.lease.Granted? && !again.readFails
    ensures var (r, stored) := AppendEffect(file, feature, input, env, platform);
            AppendEffect(stored, feature, input, again, platform) == (r, stored)
  {
    hide ParseInput, Load, PlanOnLog, ValidState, Rendered, AppendEffect;
    AppendFromLog(file, feature, input, env, platform);
    var stored := AppendEffect(file, feature, input, env, platform).1;
    AppendFromLog(stored, feature, input, again, platform);
    var e := ParseInput(input).value;
    LoadedFeature(ReadFile(file, env.readFails), feature);
    var s := LogOf(Load(ReadFile(file, env.readFails), feature), feature);
    RepeatedPlan(s, e, env.newId, again.newId);
    LoadNeedsRead(feature);
    if PlanOnLog(s, e, env.newId).Replace? {
      WriteExtends(s, e, env.newId);
      LoadRendered(PlanOnLog(s, e, env.newId).next, platform);
    }
  }

  // ---------- authority alternates along runs of appends ----------

  /** The stored file after a run of appends that starts with no file. */
  function AppendRun(feature: Feature, calls: seq<(Doc, Environment)>, platform: Platform): Option<FileText> {
    if calls == [] then None
    else
      var n := |calls| - 1;
      AppendEffect(AppendRun(feature, calls[..n], platform), feature, calls[n].0, calls[n].1, platform).1
  }

  predicate Alternates(ds: seq<Decision>) {
    forall i :: 0 <= i < |ds| ==>
      var p := LastOfCase(ds, i, ds[i].entry);
      p >= 0 ==> ds[i].entry.authority != ds[p].entry.authority
  }

  lemma AlternatesExtend(s: State, e: Entry, newId: Option<string>)
    requires Linked(s.decisions) && Alternates(s.decisions) && PlanOnLog(s, e, newId).Replace?
    ensures Alternates(PlanOnLog(s, e, newId).next.decisions)
  {
    hide ParseState, BoundedReference;
    var ds, es := s.decisions, PlanOnLog(s, e, newId).next.decisions;
    assert es[..|ds|] == ds;
    forall i | 0 <= i < |es|
      ensures var p := LastOfCase(es, i, es[i].entry);
              p >= 0 ==> es[i].entry.authority != es[p].entry.authority
    {
      LastOfCasePrefix(es, |ds|, i, es[i].entry);
      if i == |ds| {
        AdmissibleIsNews(ds, e);
      }
    }
  }

  ghost predicate WrittenByAppends(file: Option<FileText>, feature: Feature, platform: Platform) {
    file.Some? ==>
      exists s :: file.value == Rendered(platform, s) && ValidState(s) && s.feature == feature && Alternates(s.decisions)
  }

  lemma {:induction false} RunInvariant(feature: Feature, calls: seq<(Doc, Environment)>, platform: Platform)
    ensures WrittenByAppends(AppendRun(feature, calls, platform), feature, platform)
  {
    if calls == [] {
    } else {
      var n := |calls| - 1;
      RunInvariant(feature, calls[..n], platform);
      AppendKeepsInvariant(AppendRun(feature, calls[..n], platform), feature, calls[n].0, calls[n].1, platform);
    }
  }

  lemma AppendKeepsInvariant(file: Option<FileText>, feature: Feature, input: Doc, env: Environment, platform: Platform)
    requires WrittenByAppends(file, feature, platform)
    ensures WrittenByAppends(AppendEffect(file, feature, input, env, platform).1, feature, platform)
  {
    hide ParseInput, Load, PlanOnLog, AppendEffect, Rendered, ValidState, Alternates;
    AppendFromLog(file, feature, input, env, platform);
    var e := ParseInput(input);
    var s := State(feature, []);
    EmptyAlternates();
    if file.Some? {
      s :| file.value == Rendered(platform, s) && ValidState(s) && s.feature == feature && Alternates(s.decisions);
      LoadRendered(s, platform);
      ValidIsLinked(s);
    }
    LoadNeedsRead(feature);
    if e.Some? && PlanOnLog(s, e.value, env.newId).Replace? {
      WriteExtends(s, e.value, env.newId);
      AlternatesExtend(s, e.value, env.newId);
    }
    LoadMissing(feature);
  }

  lemma EmptyAlternates()
    ensures Alternates([]) && Linked([])
  {
  }

  lemma ValidIsLinked(s: State)
    requires ValidState(s)
    ensures Linked(s.decisions)
  {
  }

  lemma LoadMissing(feature: Feature)
    ensures Load(Missing, feature) == Absent
  {
  }

  function Flip(a: Authority): Authority {
    if a == Accept then Refuse else Accept
  }

  /** Down each case of a log written by appends alone, authority strictly alternates: the
      newest decision fixes the authority of every earlier one. */
  lemma {:induction false} AuthorityAlternates(ds: seq<Decision>, end: nat, e: Entry, k: nat)
    requires Alternates(ds) && end <= |ds| && k < |CaseHistory(ds, end, e)|
    ensures var h := CaseHistory(ds, end, e);
            ds[h[k]].entry.authority ==
              if k % 2 == 0 then ds[h[0]].entry.authority else Flip(ds[h[0]].entry.authority)
    decreases end
  {
    var h := CaseHistory(ds, end, e);
    if !SameCase(ds[end - 1].entry, e) {
      AuthorityAlternates(ds, end - 1, e, k);
    } else if k > 0 {
      AuthorityAlternates(ds, end - 1, e, k - 1);
      var p := LastOfCase(ds, end - 1, e);
      HistorySameKey(ds, end - 1, ds[end - 1].entry, e);
      HistorySkips(ds, p + 1, end - 1, e);
    }
  }
}
