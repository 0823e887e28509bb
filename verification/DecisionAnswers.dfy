/** What the decision store answers: for every append, migration and read, the result and
    whether the file is replaced, told from the stored decisions themselves. */
module DecisionAnswers {
  import opened Json
  import opened DecisionLog
  import opened DecisionCodec
  import opened DecisionStore
  import opened DecisionRuns

  // ---------- how an entry stands to the log ----------

  /** `d` is of the case and the source that `e` names. */
  predicate InCase(d: Decision, e: Entry) {
    && d.entry.origin.Some? && e.origin.Some?
    && d.entry.origin.value.caseId == e.origin.value.caseId
    && d.entry.origin.value.source.id == e.origin.value.source.id
    && d.entry.origin.value.source.snapshot == e.origin.value.source.snapshot
  }

  predicate IsNewest(ds: seq<Decision>, e: Entry, i: int) {
    0 <= i < |ds| && InCase(ds[i], e) && forall k :: i < k < |ds| ==> !InCase(ds[k], e)
  }

  /** `d` answers the same offer as `e` or, when `e` answers none, says the same as `e` of the
      same case, the evidence of a legacy row and an earlier revision apart. */
  predicate Echoes(d: Decision, e: Entry) {
    if e.offerEntryId.Some? then d.entry.offerEntryId == e.offerEntryId
    else d.entry.(legacyRow := None, supersedes := None) == e.(legacyRow := None, supersedes := None)
  }

  predicate IsFirstEcho(ds: seq<Decision>, e: Entry, i: int) {
    0 <= i < |ds| && Echoes(ds[i], e) && forall k :: 0 <= k < i ==> !Echoes(ds[k], e)
  }

  predicate Names(e: Entry, d: Decision) {
    e.supersedes.Some? && e.supersedes.value.id == d.id && e.supersedes.value.revision == d.revision
  }

  /** The stored decision that an entry is answered with, although nothing is written: for an
      entry that revises nothing, the first it echoes; for a revision, the newest of its case,
      when the authority is the same and the entry names that decision or the one it revised. */
  predicate AnsweredBy(ds: seq<Decision>, e: Entry, i: int) {
    if e.supersedes.None? then IsFirstEcho(ds, e, i)
    else
      && IsNewest(ds, e, i)
      && ds[i].entry.authority == e.authority
      && (Names(e, ds[i]) || (ds[i].entry.supersedes == e.supersedes && ds[i].entry.offerEntryId == e.offerEntryId))
  }

  /** An entry to be recorded: it revises nothing, echoes nothing and opens its case, or it
      names the newest decision of its case and reverses its authority. */
  predicate IsNewsworthy(ds: seq<Decision>, e: Entry) {
    if e.supersedes.None? then forall k :: 0 <= k < |ds| ==> !Echoes(ds[k], e) && !InCase(ds[k], e)
    else exists i :: 0 <= i < |ds| && IsNewest(ds, e, i) && Names(e, ds[i]) && ds[i].entry.authority != e.authority
  }

  /** A revision that answers an offer of another place in the log. */
  predicate BorrowsElsewhere(ds: seq<Decision>, e: Entry) {
    && e.offerEntryId.Some?
    && (exists k :: 0 <= k < |ds| && ds[k].entry.offerEntryId == e.offerEntryId)
    && (exists i :: 0 <= i < |ds| && IsNewest(ds, e, i) && ds[i].entry.offerEntryId != e.offerEntryId)
  }

  predicate IdUsable(ds: seq<Decision>, id: string) {
    !Blank(id) && |id| <= 256 && forall k :: 0 <= k < |ds| ==> ds[k].id != id
  }

  lemma HeadIsNewest(ds: seq<Decision>, e: Entry)
    ensures forall i :: IsNewest(ds, e, i) <==> i == Head(ds, e) >= 0
    ensures Head(ds, e) < 0 <==> forall k :: 0 <= k < |ds| ==> !InCase(ds[k], e)
  {
    assert forall k :: 0 <= k < |ds| ==> (SameCase(ds[k].entry, e) <==> InCase(ds[k], e));
  }

  lemma RepeatedIsEcho(ds: seq<Decision>, e: Entry)
    requires e.supersedes.None?
    ensures forall i :: IsFirstEcho(ds, e, i) <==> i == FirstRepeated(ds, e) >= 0
    ensures FirstRepeated(ds, e) < 0 <==> forall k :: 0 <= k < |ds| ==> !Echoes(ds[k], e)
  {
    assert forall k :: 0 <= k < |ds| ==> (Repeats(ds[k], e) <==> Echoes(ds[k], e));
  }

  lemma ScreenExactly(ds: seq<Decision>, e: Entry)
    ensures forall i: nat :: Screen(ds, e) == Replay(i) <==> AnsweredBy(ds, e, i)
    ensures Screen(ds, e).Admissible? <==> IsNewsworthy(ds, e) && forall i: nat :: !AnsweredBy(ds, e, i)
  {
    hide Head, FirstRepeated, Echoes, InCase, IsNewest, IsFirstEcho;
    HeadIsNewest(ds, e);
    if e.supersedes.None? {
      RepeatedIsEcho(ds, e);
    } else {
      NothingRepeated(ds, e);
    }
  }

  lemma NothingRepeated(ds: seq<Decision>, e: Entry)
    requires e.supersedes.Some?
    ensures FirstRepeated(ds, e) < 0
  {
  }

  lemma NewsIsUnanswered(ds: seq<Decision>, e: Entry)
    ensures IsNewsworthy(ds, e) ==> forall i :: !AnsweredBy(ds, e, i)
  {
    hide Echoes, InCase;
  }

  lemma BorrowsIsElsewhere(ds: seq<Decision>, e: Entry)
    requires IsNewsworthy(ds, e)
    ensures BorrowsOffer(ds, e) <==> BorrowsElsewhere(ds, e)
  {
    hide Head, InCase, Names;
    HeadIsNewest(ds, e);
    assert e.offerEntryId.Some? ==> (OfferUsed(ds, e.offerEntryId.value) <==>
                                       exists k :: 0 <= k < |ds| && ds[k].entry.offerEntryId == e.offerEntryId);
  }

  /** Every answer of an append.  It hands back a stored decision exactly when one answers the
      entry; it writes exactly when the entry is newsworthy, its id usable, the log not full
      and no offer borrowed, and then adds the decision that the entry and the id make; a
      newsworthy entry without an id fails with the id generator; all else is invalid. */
  lemma AppendAnswers(s: State, e: Entry, newId: Option<string>)
    requires ValidState(s) && WellFormedEntry(e)
    ensures var ds := s.decisions;
            var plan := PlanOnLog(s, e, newId);
            && (forall d :: plan == Finish(Appended(d)) <==> exists i :: 0 <= i < |ds| && AnsweredBy(ds, e, i) && ds[i] == d)
            && (plan == Finish(AppendFailed(LeaseOperationFailed)) <==> IsNewsworthy(ds, e) && newId.None?)
            && (plan.Replace? <==>
                  && IsNewsworthy(ds, e)
                  && newId.Some? && IdUsable(ds, newId.value)
                  && |ds| < 512
                  && !BorrowsElsewhere(ds, e))
            && (plan.Replace? ==>
                  var d := Decision(newId.value, |ds| + 1, e);
                  plan == Replace(State(s.feature, ds + [d]), Appended(d), AppendFailed(AtomicReplaceFailed)))
            && (plan.Finish? && plan.result.AppendFailed? ==>
                  plan.result.reason in {LeaseOperationFailed, InvalidDecision})
  {
    hide Screen, IsNewsworthy, BorrowsOffer, BorrowsElsewhere, AllWellFormed, Linked, ParseState, PrintState, WellFormedEntry;
    var ds := s.decisions;
    ScreenExactly(ds, e);
    NewsIsUnanswered(ds, e);
    AnswerIsStored(ds, e);
    if IsNewsworthy(ds, e) {
      BorrowsIsElsewhere(ds, e);
      if newId.Some? {
        assert IdUsable(ds, newId.value) <==> BoundedReference(newId.value) && !exists d :: d in ds && d.id == newId.value;
        if IdUsable(ds, newId.value) {
          ClosingCheckExact(s, e, newId.value);
        }
      }
    }
  }

  lemma AnswerIsStored(ds: seq<Decision>, e: Entry)
    ensures forall i :: AnsweredBy(ds, e, i) ==> 0 <= i < |ds|
    ensures forall i, j :: AnsweredBy(ds, e, i) && AnsweredBy(ds, e, j) ==> i == j
  {
    hide Echoes, InCase, Names;
  }

  // ---------- what is read ----------

  predicate IsVersionTwo(v: Doc) {
    v.Obj? && FVersion in v.fields && v.fields[FVersion] == Num(2.0)
  }

  /** The stored text is the printed form of the valid log `s`. */
  predicate Stores(view: View, s: State) {
    view.Contents? && view.text.parsed == Some(PrintState(s)) && ValidState(s)
  }

  /** Every outcome of reading the stored file, each with the files that lead to it. */
  lemma LoadExactly(view: View, feature: Feature)
    ensures var loaded := Load(view, feature);
            && (loaded == Absent <==> view.Missing?)
            && (forall s :: loaded == Present(s) <==> Stores(view, s) && s.feature == feature)
            && (loaded == NotLoaded(Unreadable) <==> view.ReadFailed?)
            && (loaded == NotLoaded(ForeignFeature) <==> exists s :: Stores(view, s) && s.feature != feature)
            && (loaded == NotLoaded(UnsupportedVersion) <==>
                  view.Contents? && view.text.parsed.Some? && view.text.parsed.value.Obj? && !IsVersionTwo(view.text.parsed.value))
            && (loaded.NotLoaded? ==> loaded.reason in {Unreadable, ForeignFeature, UnsupportedVersion, MalformedState})
  {
    if view.Contents? && view.text.parsed.Some? {
      ReadExactly(view.text.parsed.value);
    }
    hide ParseState, PrintState, ValidState;
  }

  lemma ReadExactly(v: Doc)
    ensures forall s :: ParseState(v) == ReadValid(s) <==> v == PrintState(s) && ValidState(s)
    ensures ParseState(v).ReadUnsupported? <==> v.Obj? && !IsVersionTwo(v)
    ensures !v.Obj? ==> ParseState(v).ReadMalformed?
    ensures forall s, t :: PrintState(s) == PrintState(t) ==> s == t
  {
    forall s
      ensures ParseState(v) == ReadValid(s) <==> v == PrintState(s) && ValidState(s)
    {
      StateCodec(v, s);
    }
    forall s, t | PrintState(s) == PrintState(t)
      ensures s == t
    {
      PrintInjective(s, t);
    }
  }

  predicate TrimsTo(raw: Entry, e: Entry) {
    && e.criterion == Trim(raw.criterion)
    && e.rationale == Trim(raw.rationale)
    && e.operator == Trim(raw.operator)
    && e.authority == raw.authority
    && e.legacyRow == raw.legacyRow
    && e.supersedes == raw.supersedes
    && (e.origin.Some? <==> raw.origin.Some?)
    && (e.origin.Some? ==> e.origin.value == Origin(raw.origin.value.source, Trim(raw.origin.value.caseId)))
    && (e.offerEntryId.Some? <==> raw.offerEntryId.Some?)
    && (e.offerEntryId.Some? ==> e.offerEntryId.value == Trim(raw.offerEntryId.value))
  }

  /** An append input is accepted exactly when it is a well-formed entry's printed form, with
      no key besides, and stands for that entry with its own texts trimmed; source, revision
      and legacy row keep their texts. */
  lemma InputExactly(v: Doc, e: Entry)
    ensures ParseInput(v) == Some(e) <==>
              exists raw :: v == Obj(PrintEntry(raw)) && WellFormedEntry(raw) && TrimsTo(raw, e)
  {
    hide ParseEntry, PrintEntry, WellFormedEntry, TrimsTo, TrimEntry;
    forall raw
      ensures v.Obj? ==> (ParseEntry(v.fields, {}) == Some(raw) <==> v == Obj(PrintEntry(raw)) && WellFormedEntry(raw))
      ensures TrimsTo(raw, e) <==> e == TrimEntry(raw)
    {
      if v.Obj? {
        EntryExactly(v.fields, raw);
      }
      TrimmedExactly(raw, e);
    }
  }

  lemma TrimmedExactly(raw: Entry, e: Entry)
    ensures TrimsTo(raw, e) <==> e == TrimEntry(raw)
  {
    hide Trim;
  }

  lemma EntryExactly(o: Fields, raw: Entry)
    ensures ParseEntry(o, {}) == Some(raw) <==> o == PrintEntry(raw) && WellFormedEntry(raw)
  {
    hide ParseEntry, PrintEntry, WellFormedEntry;
    PrintRepresents(o, raw, map[]);
    assert PrintEntry(raw) + map[] == PrintEntry(raw);
    if ParseEntry(o, {}) == Some(raw) {
      ParsedRepresents(o, raw, {});
    }
    if o == PrintEntry(raw) && WellFormedEntry(raw) {
      ParseRepresented(o, raw, {});
    }
  }

  // ---------- migration ----------

  /** A row of the retired document: an object whose six texts are not blank, the decision
      being one of the two words. */
  predicate IsLegacyRow(v: Doc) {
    && v.Obj?
    && (forall key :: key in {FCriterion, FSummary, FDecision, FRationale, FOperator, FDecidedAt} ==>
          key in v.fields && v.fields[key].Str? && !Blank(v.fields[key].s))
    && v.fields[FDecision].s in {"accept", "refuse"}
  }

  predicate IsVersionOneFile(view: View) {
    && view.Contents? && view.text.parsed.Some? && view.text.parsed.value.Obj?
    && FVersion in view.text.parsed.value.fields
    && view.text.parsed.value.fields[FVersion] == Num(1.0)
  }

  /** The file is a version-one document of legacy rows and nothing else. */
  ghost predicate IsLegacyFile(view: View) {
    && view.Contents? && view.text.parsed.Some?
    && exists rows: seq<Doc> ::
         && view.text.parsed.value == Obj(map[FVersion := Num(1.0), FDecisions := Arr(rows)])
         && forall i :: 0 <= i < |rows| ==> IsLegacyRow(rows[i])
  }

  /** Every answer of a migration.  It writes exactly when the file is still the legacy
      document whose id the caller read, and then the proposed log; it is done already
      exactly when the file stores that very log; the file has changed when it is gone, is
      another legacy document or stores other decisions of the feature. */
  lemma MigrationAnswers(view: View, next: State, sourceId: string, platform: Platform)
    requires ValidState(next)
    ensures var plan := PlanMigration(view, next, sourceId, platform);
            && (plan.Replace? <==> IsLegacyFile(view) && platform.documentId(view.text.raw) == sourceId)
            && (plan.Replace? ==> plan == Replace(next, Migrated, MigrationFailed(AtomicReplaceFailed)))
            && (plan == Finish(AlreadyMigrated) <==> Stores(view, next))
            && (plan == Finish(MigrationFailed(LegacyChanged)) <==>
                  || view.Missing?
                  || (IsLegacyFile(view) && platform.documentId(view.text.raw) != sourceId)
                  || exists s :: Stores(view, s) && s.feature == next.feature && s != next)
            && (plan == Finish(MigrationFailed(ForeignFeature)) <==> exists s :: Stores(view, s) && s.feature != next.feature)
            && (plan == Finish(MigrationFailed(Unreadable)) <==> view.ReadFailed?)
            && (plan == Finish(MigrationFailed(UnsupportedVersion)) <==>
                  && view.Contents? && view.text.parsed.Some? && view.text.parsed.value.Obj?
                  && !IsVersionOneFile(view) && !IsVersionTwo(view.text.parsed.value))
            && (plan.Finish? && plan.result != AlreadyMigrated ==>
                  && plan.result.MigrationFailed?
                  && plan.result.reason in {LegacyChanged, ForeignFeature, Unreadable, UnsupportedVersion, MalformedState})
  {
    hide IsLegacyFile, IsLegacyDocument, ParseState, PrintState, ValidState, Stores;
    if view.Contents? && view.text.parsed.Some? {
      var v := view.text.parsed.value;
      ReadExactly(v);
      LegacyExactly(view);
      StoredIsRead(view);
      assert ParseState(v).ReadValid? ==> Stores(view, ParseState(v).state);
    } else {
      NoLegacyFile(view);
    }
  }

  lemma StoredIsRead(view: View)
    requires view.Contents? && view.text.parsed.Some?
    ensures forall s {:trigger Stores(view, s)} :: Stores(view, s) <==> ParseState(view.text.parsed.value) == ReadValid(s)
  {
    hide ParseState, PrintState, ValidState;
    forall s
      ensures Stores(view, s) <==> ParseState(view.text.parsed.value) == ReadValid(s)
    {
      StateCodec(view.text.parsed.value, s);
    }
  }

  lemma NoLegacyFile(view: View)
    requires !(view.Contents? && view.text.parsed.Some?)
    ensures !IsLegacyFile(view) && forall s :: !Stores(view, s)
  {
  }

  lemma LegacyExactly(view: View)
    requires view.Contents? && view.text.parsed.Some?
    ensures IsLegacyDocument(view.text.parsed.value) <==> IsLegacyFile(view)
    ensures IsLegacyFile(view) ==> IsVersionOneFile(view)
  {
    var v := view.text.parsed.value;
    forall row
      ensures IsOverScopeDecision(row) <==> IsLegacyRow(row)
    {
      assert "accept"[0] != ' ' && !Blank("accept") && "refuse"[0] != ' ' && !Blank("refuse");
    }
    if IsLegacyDocument(v) {
      var rows := v.fields[FDecisions].items;
      assert v.fields == map[FVersion := Num(1.0), FDecisions := Arr(rows)];
    }
  }

  // ---------- whole calls ----------

  /** The log that an append finds: that of the stored file, or an empty one when there is
      no file. */
  predicate Finds(file: Option<FileText>, feature: Feature, env: Environment, s: State) {
    && env.lease.Granted? && !env.readFails
    && s.feature == feature
    && if file.None? then s.decisions == [] else Stores(Contents(file.value), s)
  }

  predicate IsRecordable(ds: seq<Decision>, e: Entry, newId: Option<string>) {
    && IsNewsworthy(ds, e)
    && newId.Some? && IdUsable(ds, newId.value)
    && |ds| < 512
    && !BorrowsElsewhere(ds, e)
  }

  /** What a call of append returns and leaves in the file.  A decision comes back exactly
      when the log found holds the answer and the file stays, or when the entry is recordable
      and the file holds the log found with the new decision behind it.  The failures of the
      lease, of the read and of the replacement each have their own answer. */
  lemma AppendCall(file: Option<FileText>, feature: Feature, input: Doc, env: Environment, platform: Platform, e: Entry)
    requires WellFormedFeature(feature) && ParseInput(input) == Some(e)
    ensures var (r, after) := AppendEffect(file, feature, input, env, platform);
            && (r.Appended? <==>
                  exists s :: && Finds(file, feature, env, s)
                              && (Answers(s, e, r, after, file) || (env.Replaces() && Records(s, e, r, after, env.newId, platform))))
            && (r == AppendFailed(LockTimeout) <==> env.lease == TimedOut)
            && (r == AppendFailed(LockFailed) <==> env.lease == LeaseOutcome.Refused)
            && (r == AppendFailed(Unreadable) <==> env.lease.Granted? && env.readFails)
            && (r == AppendFailed(AtomicReplaceFailed) <==>
                  !env.Replaces() && exists s :: Finds(file, feature, env, s) && IsRecordable(s.decisions, e, env.newId))
            && (!r.Appended? ==> after == file)
  {
    hide Screen, IsRecordable, ParseState, PrintState, ParseInput, WellFormedEntry, ValidLog, PlanOnLog, Load, AnsweredBy, Finds, Rendered;
    TrimmedInputWellFormed(input, e);
    LoadExactly(ReadFile(file, env.readFails), feature);
    FoundIsLoaded(file, feature, env);
    match Load(ReadFile(file, env.readFails), feature)
    case NotLoaded(_) =>
    case Absent =>
      EmptyLogValid(feature);
      PlanAnswers(State(feature, []), e, env.newId);
    case Present(s) =>
      PlanAnswers(s, e, env.newId);
  }

  lemma PlanAnswers(s: State, e: Entry, newId: Option<string>)
    requires ValidState(s) && WellFormedEntry(e)
    ensures var plan := PlanOnLog(s, e, newId);
            && (forall d :: plan == Finish(Appended(d)) <==> exists i :: 0 <= i < |s.decisions| && AnsweredBy(s.decisions, e, i) && s.decisions[i] == d)
            && (plan.Replace? <==> IsRecordable(s.decisions, e, newId))
            && (plan.Replace? ==>
                  var d := Decision(newId.value, |s.decisions| + 1, e);
                  plan == Replace(State(s.feature, s.decisions + [d]), Appended(d), AppendFailed(AtomicReplaceFailed)))
            && (plan.Finish? && plan.result.AppendFailed? ==>
                  plan.result.reason in {LeaseOperationFailed, InvalidDecision})
  {
    hide PlanOnLog, AnsweredBy, IsNewsworthy, BorrowsElsewhere, IdUsable, ValidState;
    AppendAnswers(s, e, newId);
  }

  lemma FoundIsLoaded(file: Option<FileText>, feature: Feature, env: Environment)
    ensures forall s :: Finds(file, feature, env, s) <==>
                          && env.lease.Granted?
                          && (|| Load(ReadFile(file, env.readFails), feature) == Present(s)
                              || (Load(ReadFile(file, env.readFails), feature) == Absent && s == State(feature, [])))
  {
    hide Load;
    LoadExactly(ReadFile(file, env.readFails), feature);
  }

  predicate Answers(s: State, e: Entry, r: AppendResult, after: Option<FileText>, file: Option<FileText>) {
    && after == file
    && exists i :: 0 <= i < |s.decisions| && AnsweredBy(s.decisions, e, i) && r == Appended(s.decisions[i])
  }

  predicate Records(s: State, e: Entry, r: AppendResult, after: Option<FileText>, newId: Option<string>, platform: Platform) {
    && IsRecordable(s.decisions, e, newId)
    && var d := Decision(newId.value, |s.decisions| + 1, e);
       r == Appended(d) && after == Some(Rendered(platform, State(s.feature, s.decisions + [d])))
  }

  lemma EmptyLogValid(feature: Feature)
    requires WellFormedFeature(feature)
    ensures ValidState(State(feature, []))
  {
  }

  /** The decisions a migration proposes are the printed form of the valid log `next`. */
  predicate Proposes(feature: Feature, decisions: seq<Doc>, next: State) {
    ValidState(next) && next.feature == feature && decisions == PrintList(PrintDecision, next.decisions)
  }

  lemma ProposedExactly(feature: Feature, decisions: seq<Doc>, next: State)
    ensures ParseState(ProposedLog(feature, decisions)) == ReadValid(next) <==> Proposes(feature, decisions, next)
  {
    hide ParseState, ValidState, PrintDecision;
    var v := ProposedLog(feature, decisions);
    StateCodec(v, next);
    StateShape(v, next);
    assert v.fields.Keys == {FVersion, FFeature, FDecisions};
    if v.fields[FFeature] == PrintFeature(next.feature) {
      var a, b := PrintFeature(feature).fields, PrintFeature(next.feature).fields;
      assert a[FRepository] == b[FRepository] && a[FFeature] == b[FFeature];
    }
  }

  /** What a call of the migration returns and leaves in the file.  It is done exactly when the
      proposal is a valid log, the lease is granted, the file can be read and is the legacy
      document the caller read, and the replacement succeeds; then the file holds the log. */
  lemma MigrationCall(file: Option<FileText>, feature: Feature, sourceId: string, decisions: seq<Doc>, env: Environment,
                      platform: Platform)
    ensures var (r, after) := MigrationEffect(file, feature, sourceId, decisions, env, platform);
            var view := ReadFile(file, env.readFails);
            && (forall next :: Proposes(feature, decisions, next) ==>
                  && (r == Migrated <==>
                        && env.lease.Granted? && env.Replaces()
                        && IsLegacyFile(view) && platform.documentId(view.text.raw) == sourceId)
                  && (r == Migrated ==> after == Some(Rendered(platform, next)))
                  && (r == AlreadyMigrated <==> env.lease.Granted? && Stores(view, next))
                  && (r == MigrationFailed(LockTimeout) <==> env.lease == TimedOut)
                  && (r == MigrationFailed(LockFailed) <==> env.lease == LeaseOutcome.Refused)
                  && (r == MigrationFailed(AtomicReplaceFailed) <==>
                        && env.lease.Granted? && !env.Replaces()
                        && IsLegacyFile(view) && platform.documentId(view.text.raw) == sourceId))
            && ((forall next :: !Proposes(feature, decisions, next)) ==> r == MigrationFailed(MalformedState))
            && (r != Migrated ==> after == file)
  {
    hide Proposes, ParseState, ProposedLog, PlanMigration, IsLegacyFile, Stores, Rendered;
    forall next
      ensures ParseState(ProposedLog(feature, decisions)) == ReadValid(next) <==> Proposes(feature, decisions, next)
    {
      ProposedExactly(feature, decisions, next);
    }
    var read := ParseState(ProposedLog(feature, decisions));
    if read.ReadValid? {
      ProposedIsValid(feature, decisions, read.state);
      MigrationAnswers(ReadFile(file, env.readFails), read.state, sourceId, platform);
    }
  }

  lemma ProposedIsValid(feature: Feature, decisions: seq<Doc>, next: State)
    requires Proposes(feature, decisions, next)
    ensures ValidState(next)
  {
  }
}
