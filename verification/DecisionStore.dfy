/** The feature-local store of accepted-widening decisions: what one `append` or one
    `migrateLegacy` does to the stored file, and the class that does it under a lease. */
module DecisionStore {
  import opened Json
  import opened DecisionLog
  import opened DecisionCodec

  /** A stored text together with what `JSON.parse` makes of it. */
  datatype FileText = FileText(raw: string, parsed: Option<Doc>)

  /** `JSON.stringify` and the SHA-256 document id, both left abstract. */
  datatype Platform = Platform(stringify: Doc -> string, documentId: string -> string)

  datatype Failure =
    | InvalidDecision | MalformedState | UnsupportedVersion | ForeignFeature
    | LockTimeout | LockFailed | Unreadable | AtomicReplaceFailed | LeaseOperationFailed
    | LegacyChanged

  datatype AppendResult = Appended(decision: Decision) | AppendFailed(reason: Failure)

  datatype MigrationResult = Migrated | AlreadyMigrated | MigrationFailed(reason: Failure)

  /** What a read of the stored file delivered. */
  datatype View = Missing | ReadFailed | Contents(text: FileText)

  datatype Loaded = Absent | Present(state: State) | NotLoaded(reason: Failure)

  function ReadFile(file: Option<FileText>, fails: bool): View {
    if fails then ReadFailed else if file.None? then Missing else Contents(file.value)
  }

  function Rendered(platform: Platform, s: State): FileText {
    FileText(platform.stringify(PrintState(s)) + "\n", Some(PrintState(s)))
  }

  function Load(view: View, feature: Feature): Loaded {
    match view
    case Missing => Absent
    case ReadFailed => NotLoaded(Unreadable)
    case Contents(text) =>
      if text.parsed.None? then NotLoaded(MalformedState)
      else match ParseState(text.parsed.value)
        case ReadMalformed => NotLoaded(MalformedState)
        case ReadUnsupported => NotLoaded(UnsupportedVersion)
        case ReadValid(s) => if s.feature == feature then Present(s) else NotLoaded(ForeignFeature)
  }

  // ---------- append ----------

  /** A stored decision that an entry without offer and without revision repeats. */
  predicate RepeatsLegacy(d: Decision, e: Entry) {
    && d.entry.offerEntryId.None?
    && d.entry.criterion == e.criterion
    && d.entry.authority == e.authority
    && d.entry.rationale == e.rationale
    && d.entry.operator == e.operator
    && d.entry.origin == e.origin
  }

  predicate Repeats(d: Decision, e: Entry) {
    && e.supersedes.None?
    && if e.offerEntryId.None? then RepeatsLegacy(d, e) else d.entry.offerEntryId == e.offerEntryId
  }

  /** The index of the first decision that `e` repeats, or -1. */
  function FirstRepeated(ds: seq<Decision>, e: Entry, from: nat := 0): (i: int)
    requires from <= |ds|
    ensures -1 <= i < |ds|
    ensures i >= 0 ==> from <= i && Repeats(ds[i], e) && forall k :: from <= k < i ==> !Repeats(ds[k], e)
    ensures i < 0 ==> forall k :: from <= k < |ds| ==> !Repeats(ds[k], e)
    decreases |ds| - from
  {
    if from == |ds| then -1
    else if Repeats(ds[from], e) then from
    else FirstRepeated(ds, e, from + 1)
  }

  /** The index of the newest decision of the case of `e`, or -1. */
  function Head(ds: seq<Decision>, e: Entry): (p: int)
    ensures -1 <= p < |ds|
    ensures p >= 0 ==> SameCase(ds[p].entry, e)
  {
    LastOfCase(ds, |ds|, e)
  }

  datatype Screening = Replay(index: nat) | Admissible | Inadmissible

  /** The replay rules and the compare-and-swap on the head of the case. */
  function Screen(ds: seq<Decision>, e: Entry): (r: Screening)
    ensures r.Replay? ==> r.index < |ds|
  {
    var first := FirstRepeated(ds, e);
    var head := Head(ds, e);
    if first >= 0 then Replay(first)
    else if e.supersedes.Some? then
      if head >= 0
         && ds[head].entry.supersedes == e.supersedes
         && ds[head].entry.offerEntryId == e.offerEntryId
         && ds[head].entry.authority == e.authority then Replay(head)
      else if head < 0 || e.supersedes.value != ds[head].Ref() then Inadmissible
      else if e.authority == ds[head].entry.authority then Replay(head)
      else Admissible
    else if head >= 0 then Inadmissible
    else Admissible
  }

  function NewDecision(ds: seq<Decision>, e: Entry, id: string): Decision {
    Decision(id, |ds| + 1, e)
  }

  datatype Plan<R> = Finish(result: R) | Replace(next: State, onSuccess: R, onFailure: R)

  /** What an append decides once the stored log is known.  `newId` is `None` when the id
      generator throws. */
  function PlanOnLog(s: State, e: Entry, newId: Option<string>): Plan<AppendResult> {
    match Screen(s.decisions, e)
    case Replay(i) => Finish(Appended(s.decisions[i]))
    case Inadmissible => Finish(AppendFailed(InvalidDecision))
    case Admissible =>
      if newId.None? then Finish(AppendFailed(LeaseOperationFailed))
      else if !BoundedReference(newId.value) || exists d :: d in s.decisions && d.id == newId.value
      then Finish(AppendFailed(InvalidDecision))
      else
        var d := NewDecision(s.decisions, e, newId.value);
        var next := State(s.feature, s.decisions + [d]);
        if ParseState(PrintState(next)).ReadValid?
        then Replace(next, Appended(d), AppendFailed(AtomicReplaceFailed))
        else Finish(AppendFailed(InvalidDecision))
  }

  function PlanAppend(view: View, feature: Feature, e: Entry, newId: Option<string>): Plan<AppendResult> {
    match Load(view, feature)
    case NotLoaded(reason) => Finish(AppendFailed(reason))
    case Absent => PlanOnLog(State(feature, []), e, newId)
    case Present(s) => PlanOnLog(s, e, newId)
  }

  // ---------- migration of the retired document ----------

  /** The document a migration proposes, before it is checked. */
  function ProposedLog(feature: Feature, decisions: seq<Doc>): Doc {
    Obj(map[FVersion := Num(2.0), FFeature := PrintFeature(feature), FDecisions := Arr(decisions)])
  }

  function PlanMigration(view: View, next: State, sourceId: string, platform: Platform): Plan<MigrationResult> {
    match view
    case Missing => Finish(MigrationFailed(LegacyChanged))
    case ReadFailed => Finish(MigrationFailed(Unreadable))
    case Contents(text) =>
      if text.parsed.None? || !text.parsed.value.Obj? then Finish(MigrationFailed(MalformedState))
      else if IsVersionOne(text.parsed.value) then
        if !IsLegacyDocument(text.parsed.value) then Finish(MigrationFailed(MalformedState))
        else if platform.documentId(text.raw) != sourceId then Finish(MigrationFailed(LegacyChanged))
        else Replace(next, Migrated, MigrationFailed(AtomicReplaceFailed))
      else
        match ParseState(text.parsed.value)
        case ReadUnsupported => Finish(MigrationFailed(UnsupportedVersion))
        case ReadMalformed => Finish(MigrationFailed(MalformedState))
        case ReadValid(existing) =>
          if existing.feature != next.feature then Finish(MigrationFailed(ForeignFeature))
          else if existing.decisions == next.decisions then Finish(AlreadyMigrated)
          else Finish(MigrationFailed(LegacyChanged))
  }

  // ---------- what the closing re-check of an append refuses ----------

  lemma AcceptedIsValid(s: State)
    ensures ParseState(PrintState(s)).ReadValid? <==> ValidState(s)
  {
    if ParseState(PrintState(s)).ReadValid? {
      var t := ParseState(PrintState(s)).state;
      StateCodec(PrintState(s), t);
      PrintInjective(s, t);
    }
    StateCodec(PrintState(s), s);
  }

  lemma PrintInjective(s: State, t: State)
    requires PrintState(s) == PrintState(t)
    ensures s == t
  {
    StateShape(PrintState(s), t);
    StateShape(PrintState(s), s);
    assert PrintFeature(s.feature).fields[FRepository] == PrintFeature(t.feature).fields[FRepository];
    assert PrintFeature(s.feature).fields[FFeature] == PrintFeature(t.feature).fields[FFeature];
    assert |s.decisions| == |t.decisions|;
    forall i | 0 <= i < |s.decisions|
      ensures s.decisions[i] == t.decisions[i]
    {
      assert PrintList(PrintDecision, s.decisions)[i] == PrintList(PrintDecision, t.decisions)[i];
      PrintDecisionInjective(s.decisions[i], t.decisions[i]);
    }
  }

  lemma PrintDecisionInjective(c: Decision, d: Decision)
    requires PrintDecision(c) == PrintDecision(d)
    ensures c == d
  {
    var o := PrintDecision(c).fields;
    assert o[FId] == Str(c.id) && o[FId] == Str(d.id);
    assert o[FRevision] == Num(c.revision as real) && o[FRevision] == Num(d.revision as real);
    PrintRepresents(o, c.entry, Identity(c));
    PrintRepresents(o, d.entry, Identity(d));
    RepresentsOne(o, c.entry, d.entry, Identity(c).Keys);
  }

  lemma RepresentsOne(o: Fields, a: Entry, b: Entry, identity: set<Field>)
    requires identity <= {FId, FRevision}
    requires Represents(o, a, identity) && Represents(o, b, identity)
    ensures a == b
  {
    forall key | key in ENTRY_KEYS
      ensures EntryField(a, key) == EntryField(b, key)
    {
      assert HasField(o, key, EntryField(a, key)) && HasField(o, key, EntryField(b, key));
    }
    SameFieldsSameEntry(a, b);
  }

  lemma SameFieldsSameEntry(a: Entry, b: Entry)
    requires forall key :: key in ENTRY_KEYS ==> EntryField(a, key) == EntryField(b, key)
    ensures a == b
  {
    assert EntryField(a, FCriterion) == EntryField(b, FCriterion);
    assert EntryField(a, FRationale) == EntryField(b, FRationale);
    assert EntryField(a, FOperator) == EntryField(b, FOperator);
    assert EntryField(a, FAuthority) == EntryField(b, FAuthority);
    AuthorityCodec(PrintAuthority(a.authority), a.authority);
    AuthorityCodec(PrintAuthority(a.authority), b.authority);
    assert EntryField(a, FOriginalSource) == EntryField(b, FOriginalSource);
    assert EntryField(a, FOriginalCaseId) == EntryField(b, FOriginalCaseId);
    assert EntryField(a, FOfferEntryId) == EntryField(b, FOfferEntryId);
    assert EntryField(a, FLegacyRow) == EntryField(b, FLegacyRow);
    assert EntryField(a, FSupersedes) == EntryField(b, FSupersedes);
    if a.origin.Some? {
      PrintSourceInjective(a.origin.value.source, b.origin.value.source);
    }
    if a.supersedes.Some? {
      PrintReferenceInjective(a.supersedes.value, b.supersedes.value);
    }
    if a.legacyRow.Some? {
      PrintLegacyRowInjective(a.legacyRow.value, b.legacyRow.value);
    }
  }

  lemma PrintSourceInjective(a: Source, b: Source)
    ensures PrintSource(a) == PrintSource(b) ==> a == b
  {
    var x, y := PrintSource(a).fields, PrintSource(b).fields;
    assert x == y ==> x[FId] == y[FId] && x[FSnapshot] == y[FSnapshot];
  }

  lemma PrintReferenceInjective(a: Reference, b: Reference)
    ensures PrintReference(a) == PrintReference(b) ==> a == b
  {
    var x, y := PrintReference(a).fields, PrintReference(b).fields;
    assert x == y ==> x[FId] == y[FId] && x[FRevision] == y[FRevision];
  }

  lemma PrintLegacyRowInjective(a: LegacyRow, b: LegacyRow)
    ensures PrintLegacyRow(a) == PrintLegacyRow(b) ==> a == b
  {
    var x, y := PrintLegacyRow(a).fields, PrintLegacyRow(b).fields;
    assert x == y ==> x[FSummary] == y[FSummary] && (FDecidedAt in x <==> FDecidedAt in y);
    assert x == y && FDecidedAt in x ==> x[FDecidedAt] == y[FDecidedAt];
  }

  /** A revision that names an offer already in the log although its case's head carries a
      different offer, or none. */
  predicate BorrowsOffer(ds: seq<Decision>, e: Entry) {
    && e.supersedes.Some?
    && e.offerEntryId.Some?
    && OfferUsed(ds, e.offerEntryId.value)
    && Head(ds, e) >= 0
    && ds[Head(ds, e)].entry.offerEntryId != e.offerEntryId
  }

  lemma AdmissibleMayFollow(ds: seq<Decision>, e: Entry)
    requires Screen(ds, e).Admissible?
    requires e.supersedes.Some? ==> e.offerEntryId.Some?
    ensures MayFollow(ds, e) <==> !BorrowsOffer(ds, e)
  {
  }

  /** Once an entry has passed the replay rules and the compare-and-swap, the closing
      re-check refuses it in exactly two cases: the log is full, or the entry borrows an
      offer. */
  lemma ClosingCheckExact(s: State, e: Entry, id: string)
    requires ValidState(s) && WellFormedEntry(e)
    requires Screen(s.decisions, e).Admissible?
    requires BoundedReference(id) && forall d :: d in s.decisions ==> d.id != id
    ensures PlanOnLog(s, e, Some(id)).Finish? <==>
              |s.decisions| == MAX_DECISIONS || BorrowsOffer(s.decisions, e)
    ensures PlanOnLog(s, e, Some(id)).Finish? ==>
              PlanOnLog(s, e, Some(id)).result == AppendFailed(InvalidDecision)
  {
    hide Screen, AllWellFormed, Linked, BorrowsOffer, MayFollow, BoundedReference, ParseState;
    var d := NewDecision(s.decisions, e, id);
    var next := State(s.feature, s.decisions + [d]);
    AcceptedIsValid(next);
    LinkedExtension(s.decisions, d);
    AdmissibleMayFollow(s.decisions, e);
    WellFormedExtension(s.decisions, d);
  }

  lemma WellFormedExtension(ds: seq<Decision>, d: Decision)
    ensures AllWellFormed(ds + [d]) <==> AllWellFormed(ds) && WellFormedDecision(d)
  {
    var es := ds + [d];
    assert es[|ds|] == d && forall i :: 0 <= i < |ds| ==> es[i] == ds[i];
  }
}
