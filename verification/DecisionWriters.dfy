/** Several stores working on one file at once.  Every file-system call of every store is a
    step of its own; only the lease keeps them apart.  Any call may fail, and a store may die
    at any point, after which its lease is recovered. */
module DecisionWriters {
  import opened Json
  import opened DecisionLog
  import opened DecisionCodec
  import opened DecisionStore
  import opened DecisionRuns

  datatype Call =
    | AppendCall(entry: Entry, newId: Option<string>)
    | MigrateCall(next: State, sourceId: string)

  datatype Outcome = AppendOutcome(append: AppendResult) | MigrateOutcome(migration: MigrationResult)

  /** Where one store is in its current call. */
  datatype Phase =
    | Idle
    | Waiting(call: Call)
    | Leased(call: Call)
    | Staging(next: State, onSuccess: Outcome, onFailure: Outcome)
    | Staged(temporary: string, next: State, onSuccess: Outcome, onFailure: Outcome)
    | Releasing(outcome: Outcome)
    | Done(outcome: Outcome)

  datatype World = World(
    file: Option<FileText>,
    temporaries: map<string, FileText>,
    holder: Option<nat>,
    phases: seq<Phase>)

  /** The fixed part of a run: the feature each store was created for. */
  datatype Setting = Setting(features: seq<Feature>, platform: Platform)

  predicate HoldsLease(p: Phase) {
    p.Leased? || p.Staging? || p.Staged? || p.Releasing?
  }

  // ---------- steps ----------

  /** What a call does before it asks for the lease. */
  predicate Begins(feature: Feature, p: Phase) {
    match p
    case Waiting(AppendCall(e, _)) => WellFormedEntry(e)
    case Waiting(MigrateCall(next, _)) => ValidState(next) && next.feature == feature
    case Done(AppendOutcome(r)) => r == AppendFailed(InvalidDecision)
    case Done(MigrateOutcome(r)) => r == MigrationFailed(MalformedState)
    case _ => false
  }

  function Failed(call: Call, reason: Failure): Outcome {
    if call.AppendCall? then AppendOutcome(AppendFailed(reason)) else MigrateOutcome(MigrationFailed(reason))
  }

  /** What a call decides once it has read the file. */
  function AfterRead(view: View, feature: Feature, call: Call, platform: Platform): Phase {
    match call
    case AppendCall(e, newId) =>
      (match PlanAppend(view, feature, e, newId)
       case Finish(r) => Releasing(AppendOutcome(r))
       case Replace(next, good, bad) => Staging(next, AppendOutcome(good), AppendOutcome(bad)))
    case MigrateCall(proposed, sourceId) =>
      (match PlanMigration(view, proposed, sourceId, platform)
       case Finish(r) => Releasing(MigrateOutcome(r))
       case Replace(next, good, bad) => Staging(next, MigrateOutcome(good), MigrateOutcome(bad)))
  }

  datatype Action =
    | Begin(phase: Phase)
    | TakeLease
    | MissLease(lease: LeaseOutcome)
    | Read(fails: bool)
    | Write(temporary: string)
    | FailWrite(temporary: string, debris: Option<FileText>)
    | Rename
    | FailRename(removed: bool)
    | Release
    | Die

  /** Whether store `i` may perform `a` in world `w`. */
  predicate Enabled(c: Setting, w: World, i: nat, a: Action)
    requires i < |w.phases| && |c.features| == |w.phases|
  {
    var p := w.phases[i];
    match a
    case Begin(q) => (p.Idle? || p.Done?) && Begins(c.features[i], q)
    case TakeLease => p.Waiting? && w.holder.None?
    case MissLease(outcome) => p.Waiting? && !outcome.Granted?
    case Read(_) => p.Leased?
    case Write(t) => p.Staging? && t !in w.temporaries
    case FailWrite(t, _) => p.Staging? && t !in w.temporaries
    case Rename => p.Staged? && p.temporary in w.temporaries
    case FailRename(_) => p.Staged?
    case Release => p.Releasing?
    case Die => true
  }

  function Apply(c: Setting, w: World, i: nat, a: Action): World
    requires i < |w.phases| && |c.features| == |w.phases| && Enabled(c, w, i, a)
  {
    var p := w.phases[i];
    match a
    case Begin(q) => w.(phases := w.phases[i := q])
    case TakeLease => w.(holder := Some(i), phases := w.phases[i := Leased(p.call)])
    case MissLease(outcome) => w.(phases := w.phases[i := Done(Failed(p.call, LeaseFailure(outcome)))])
    case Read(fails) =>
      w.(phases := w.phases[i := AfterRead(ReadFile(w.file, fails), c.features[i], p.call, c.platform)])
    case Write(t) =>
      w.(temporaries := w.temporaries[t := Rendered(c.platform, p.next)],
         phases := w.phases[i := Staged(t, p.next, p.onSuccess, p.onFailure)])
    case FailWrite(t, debris) =>
      w.(temporaries := if debris.Some? then w.temporaries[t := debris.value] else w.temporaries,
         phases := w.phases[i := Releasing(p.onFailure)])
    case Rename =>
      w.(file := Some(w.temporaries[p.temporary]),
         temporaries := w.temporaries - {p.temporary},
         phases := w.phases[i := Releasing(p.onSuccess)])
    case FailRename(removed) =>
      w.(temporaries := if removed then w.temporaries - {p.temporary} else w.temporaries,
         phases := w.phases[i := Releasing(p.onFailure)])
    case Release => w.(holder := None, phases := w.phases[i := Done(p.outcome)])
    case Die =>
      w.(holder := if w.holder == Some(i) then None else w.holder, phases := w.phases[i := Idle])
  }

  ghost predicate Step(c: Setting, w: World, w': World) {
    exists i: nat, a :: i < |w.phases| && |c.features| == |w.phases| && Enabled(c, w, i, a) && w' == Apply(c, w, i, a)
  }

  ghost predicate Run(c: Setting, ws: seq<World>) {
    && ws != []
    && ws[0].holder.None? && |ws[0].phases| == |c.features|
    && (forall i :: 0 <= i < |ws[0].phases| ==> ws[0].phases[i].Idle?)
    && forall k :: 0 <= k < |ws| - 1 ==> Step(c, ws[k], ws[k + 1])
  }

  // ---------- how the stored file may change ----------

  /** The valid log a stored text holds, if it holds one. */
  function LogIn(file: Option<FileText>): Option<State> {
    if file.Some? && file.value.parsed.Some? && ParseState(file.value.parsed.value).ReadValid?
    then Some(ParseState(file.value.parsed.value).state) else None
  }

  predicate IsRetired(file: Option<FileText>) {
    file.Some? && file.value.parsed.Some? && IsLegacyDocument(file.value.parsed.value)
  }

  /** How one file may follow another.  A valid log is only ever extended, for the same
      feature.  Any other file stays as it is, except that no file, or a document of the
      retired version, may become a valid log. */
  predicate Evolves(old_: Option<FileText>, new_: Option<FileText>) {
    || new_ == old_
    || (&& LogIn(new_).Some?
        && match LogIn(old_)
           case Some(s) => s.feature == LogIn(new_).value.feature && s.decisions <= LogIn(new_).value.decisions
           case None => old_.None? || IsRetired(old_))
  }

  lemma EvolvesTransitive(a: Option<FileText>, b: Option<FileText>, c: Option<FileText>)
    requires Evolves(a, b) && Evolves(b, c)
    ensures Evolves(a, c)
  {
    hide ParseState, IsLegacyDocument;
  }

  lemma LogInRendered(platform: Platform, s: State)
    requires ValidState(s)
    ensures LogIn(Some(Rendered(platform, s))) == Some(s)
  {
    StateCodec(PrintState(s), s);
  }

  // ---------- the invariant ----------

  /** A decision that a call has acknowledged is stored at the index its revision says. */
  predicate Acknowledged(file: Option<FileText>, o: Outcome) {
    o.AppendOutcome? && o.append.Appended? ==>
      var d := o.append.decision;
      && LogIn(file).Some?
      && 1 <= d.revision <= |LogIn(file).value.decisions|
      && LogIn(file).value.decisions[d.revision - 1] == d
  }

  /** A pending replacement is a valid log the present file may evolve into; carrying it out
      makes good the success it promises, and its failure promises nothing. */
  predicate Promises(platform: Platform, file: Option<FileText>, next: State, good: Outcome, bad: Outcome) {
    var text := Some(Rendered(platform, next));
    && ValidState(next)
    && Evolves(file, text)
    && Acknowledged(text, good)
    && Acknowledged(file, bad)
  }

  predicate PhaseOk(c: Setting, w: World, i: nat)
    requires i < |w.phases| && |c.features| == |w.phases|
  {
    match w.phases[i]
    case Idle => true
    case Waiting(call) => Begins(c.features[i], w.phases[i])
    case Leased(call) => Begins(c.features[i], Waiting(call))
    case Staging(next, good, bad) => Promises(c.platform, w.file, next, good, bad)
    case Staged(t, next, good, bad) =>
      && t in w.temporaries && w.temporaries[t] == Rendered(c.platform, next)
      && Promises(c.platform, w.file, next, good, bad)
    case Releasing(o) => Acknowledged(w.file, o)
    case Done(o) => Acknowledged(w.file, o)
  }

  predicate Inv(c: Setting, w: World) {
    && |c.features| == |w.phases|
    && (forall i :: 0 <= i < |w.phases| ==> (HoldsLease(w.phases[i]) ==> w.holder == Some(i)))
    && (forall i :: 0 <= i < |w.phases| ==> PhaseOk(c, w, i))
  }

  // ---------- each plan promises what it should ----------

  lemma AcknowledgedEvolves(a: Option<FileText>, b: Option<FileText>, o: Outcome)
    requires Acknowledged(a, o) && Evolves(a, b)
    ensures Acknowledged(b, o)
  {
    hide ParseState, IsLegacyDocument;
  }

  lemma LoadedLog(file: Option<FileText>, feature: Feature)
    ensures var loaded := Load(ReadFile(file, false), feature);
            && (loaded.Absent? <==> file.None?)
            && (file.None? ==> LogIn(file).None?)
            && (loaded.Present? ==> LogIn(file) == Some(loaded.state) && loaded.state.feature == feature)
            && (loaded.Present? ==> Numbered(loaded.state.decisions))
  {
    LoadedFeature(ReadFile(file, false), feature);
  }

  lemma AppendPromises(c: Setting, w: World, i: nat, fails: bool)
    requires Inv(c, w) && i < |w.phases|
    requires w.phases[i].Leased? && w.phases[i].call.AppendCall?
    ensures PhaseOk(c, Apply(c, w, i, Read(fails)), i)
  {
    hide ParseInput, Load, PlanOnLog, ValidState, WellFormedEntry, LogIn, Rendered;
    var e, newId := w.phases[i].call.entry, w.phases[i].call.newId;
    var view, feature := ReadFile(w.file, fails), c.features[i];
    LoadNeedsRead(feature);
    LoadedLog(w.file, feature);
    var loaded := Load(view, feature);
    if !loaded.NotLoaded? {
      var s := LogOf(loaded, feature);
      var plan := PlanOnLog(s, e, newId);
      if plan.Replace? {
        WriteExtends(s, e, newId);
        LogInRendered(c.platform, plan.next);
        assert plan.next.decisions[|s.decisions|] == plan.onSuccess.decision;
      } else if plan.result.Appended? {
        ReplayIsStored(s, e, newId);
      }
    }
  }

  lemma ReplayIsStored(s: State, e: Entry, newId: Option<string>)
    requires Numbered(s.decisions)
    requires PlanOnLog(s, e, newId).Finish? && PlanOnLog(s, e, newId).result.Appended?
    ensures var d := PlanOnLog(s, e, newId).result.decision;
            1 <= d.revision <= |s.decisions| && s.decisions[d.revision - 1] == d
  {
    hide ParseState, BoundedReference;
  }

  lemma MigrationPromises(c: Setting, w: World, i: nat, fails: bool)
    requires Inv(c, w) && i < |w.phases|
    requires w.phases[i].Leased? && w.phases[i].call.MigrateCall?
    ensures PhaseOk(c, Apply(c, w, i, Read(fails)), i)
  {
    hide ValidState, IsLegacyDocument, Rendered, ParseState;
    assert PhaseOk(c, w, i);
    LogInRendered(c.platform, w.phases[i].call.next);
    if w.file.Some? && w.file.value.parsed.Some? {
      LegacyIsNoLog(w.file.value.parsed.value);
    }
  }

  lemma LegacyIsNoLog(v: Doc)
    ensures IsLegacyDocument(v) ==> !ParseState(v).ReadValid?
  {
  }

  // ---------- every step keeps the invariant ----------

  /** A step that leaves the file alone keeps what the other stores rely on, provided the
      temporary files of the others are left alone as well. */
  lemma OthersKept(c: Setting, w: World, i: nat, a: Action, j: nat)
    requires Inv(c, w) && i < |w.phases| && Enabled(c, w, i, a)
    requires j < |w.phases| && j != i
    ensures PhaseOk(c, Apply(c, w, i, a), j)
  {
    hide ValidState, Rendered, LogIn, IsRetired, AfterRead;
    assert PhaseOk(c, w, j) && PhaseOk(c, w, i);
    if a.Rename? {
      FileEvolves(c, w, i, a);
      var o := w.phases[j];
      if o.Done? {
        AcknowledgedEvolves(w.file, Apply(c, w, i, a).file, o.outcome);
      }
    }
  }

  lemma FileEvolves(c: Setting, w: World, i: nat, a: Action)
    requires Inv(c, w) && i < |w.phases| && Enabled(c, w, i, a)
    ensures Evolves(w.file, Apply(c, w, i, a).file)
  {
    hide ValidState, Rendered, LogIn, IsRetired, AfterRead;
    assert PhaseOk(c, w, i);
  }

  lemma ActorKept(c: Setting, w: World, i: nat, a: Action)
    requires Inv(c, w) && i < |w.phases| && Enabled(c, w, i, a)
    ensures PhaseOk(c, Apply(c, w, i, a), i)
  {
    assert PhaseOk(c, w, i);
    if a.Read? {
      if w.phases[i].call.AppendCall? {
        AppendPromises(c, w, i, a.fails);
      } else {
        MigrationPromises(c, w, i, a.fails);
      }
    } else {
      ActorKeptOtherwise(c, w, i, a);
    }
  }

  lemma ActorKeptOtherwise(c: Setting, w: World, i: nat, a: Action)
    requires Inv(c, w) && i < |w.phases| && Enabled(c, w, i, a) && !a.Read?
    ensures PhaseOk(c, Apply(c, w, i, a), i)
  {
    hide ValidState, Rendered, LogIn, IsRetired, WellFormedEntry;
    assert PhaseOk(c, w, i);
  }

  lemma StepKeepsInv(c: Setting, w: World, i: nat, a: Action)
    requires Inv(c, w) && i < |w.phases| && Enabled(c, w, i, a)
    ensures Inv(c, Apply(c, w, i, a)) && Evolves(w.file, Apply(c, w, i, a).file)
  {
    hide PhaseOk, Evolves, PlanAppend, PlanMigration;
    var w' := Apply(c, w, i, a);
    forall j | 0 <= j < |w'.phases|
      ensures PhaseOk(c, w', j)
    {
      if j == i {
        ActorKept(c, w, i, a);
      } else {
        OthersKept(c, w, i, a, j);
      }
    }
    FileEvolves(c, w, i, a);
  }

  // ---------- runs ----------

  lemma {:induction false} RunKeepsInv(c: Setting, ws: seq<World>, k: nat)
    requires Run(c, ws) && k < |ws|
    ensures Inv(c, ws[k])
  {
    hide Evolves, Enabled, Apply;
    if k == 0 {
    } else {
      RunKeepsInv(c, ws, k - 1);
      assert Step(c, ws[k - 1], ws[k]);
      var i: nat, a :| i < |ws[k - 1].phases| && Enabled(c, ws[k - 1], i, a) && ws[k] == Apply(c, ws[k - 1], i, a);
      StepKeepsInv(c, ws[k - 1], i, a);
    }
  }

  /** No lost update: along every run of any number of stores, each stored file evolves from
      every earlier one.  A valid log keeps its feature and all its decisions for ever, and
      nothing but an absent file or a retired document ever gives way to another file. */
  lemma {:induction false} NoLostUpdate(c: Setting, ws: seq<World>, j: nat, k: nat)
    requires Run(c, ws) && j <= k < |ws|
    ensures Evolves(ws[j].file, ws[k].file)
    decreases k - j
  {
    hide Enabled, Apply, Inv, LogIn, IsRetired;
    if j >= k {
    } else {
      NoLostUpdate(c, ws, j, k - 1);
      RunKeepsInv(c, ws, k - 1);
      assert Step(c, ws[k - 1], ws[k]);
      var i: nat, a :| i < |ws[k - 1].phases| && |c.features| == |ws[k - 1].phases| && Enabled(c, ws[k - 1], i, a) && ws[k] == Apply(c, ws[k - 1], i, a);
      StepKeepsInv(c, ws[k - 1], i, a);
      EvolvesTransitive(ws[j].file, ws[k - 1].file, ws[k].file);
    }
  }

  /** A decision acknowledged to any caller stays stored, at the index its revision says, in
      every later file of the run. */
  lemma AcknowledgedForever(c: Setting, ws: seq<World>, j: nat, k: nat, i: nat)
    requires Run(c, ws) && j <= k < |ws| && i < |ws[j].phases|
    requires ws[j].phases[i].Done?
    ensures Acknowledged(ws[k].file, ws[j].phases[i].outcome)
  {
    hide Run, Evolves, Acknowledged;
    RunKeepsInv(c, ws, j);
    assert PhaseOk(c, ws[j], i);
    NoLostUpdate(c, ws, j, k);
    AcknowledgedEvolves(ws[j].file, ws[k].file, ws[j].phases[i].outcome);
  }

  /** At most one store is ever between taking and giving up the lease. */
  lemma LeaseExclusive(c: Setting, ws: seq<World>, k: nat, i: nat, j: nat)
    requires Run(c, ws) && k < |ws| && i < |ws[k].phases| && j < |ws[k].phases|
    requires HoldsLease(ws[k].phases[i]) && HoldsLease(ws[k].phases[j])
    ensures i == j
  {
    hide Run, PhaseOk;
    RunKeepsInv(c, ws, k);
  }
}
