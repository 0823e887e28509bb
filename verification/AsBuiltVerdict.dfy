/** The contract of as-built review verdicts: which documents it accepts and as what. */
module AsBuiltVerdict {
  import opened Json
  import opened FindingIds

  datatype Field =
    | FVersion | FVerdict | FReachability | FDriftNotes | FOutcomeDelivered | FAffectedOutcome
    | FFindings | FViolations | FResolution
    | FPrimitive | FCallerChain | FNote | FUnexercised | FSignature
    | FKind | FStem | FDecision | FTaskId | FClass | FReference | FSummary | FId
    | FAttemptId | FCodeStamp | FPolicy | FRecordedFindings | FOutcome | FEnabled | FReason
    | FCheckReachability | FCheckPlanGap | FCheckAdrCompliance | FCheckDiagramDrift
    | Other(name: string)

  type Doc = Json<Field>
  type Fields = map<Field, Doc>

  datatype Reachability = Reachability(primitive: string, callerChain: seq<string>)

  datatype Unexercised = Unexercised(primitive: string, signature: string)

  datatype DriftNote = DriftNote(note: string, unexercised: Option<Unexercised>)

  datatype Reference = AdrDecision(stem: string, decision: int) | PlanTask(taskId: string)

  datatype Finding = Remediable(required: Reference, summary: string) | Design(optional: Option<Reference>, summary: string)

  datatype StampedFinding = StampedFinding(finding: Finding, id: string)

  /** The verdict proper; `F` is the type of a blocked verdict's findings. */
  datatype Outcome<F> =
    | Approved
    | ApprovedWithDriftNotes
    | PlanGap(outcomeDelivered: bool, affectedOutcome: string)
    | Blocked(findings: seq<F>, violations: string, resolution: string)

  datatype Verdict<F> = Verdict(reachability: seq<Reachability>, driftNotes: seq<DriftNote>, outcome: Outcome<F>)

  type ProviderVerdict = Verdict<Finding>
  type StampedVerdict = Verdict<StampedFinding>

  // ---------- parsing the parts ----------

  predicate NonBlankText(v: Doc) {
    v.Str? && !Blank(v.s)
  }

  predicate HasKeys(v: Doc, keys: set<Field>) {
    v.Obj? && v.fields.Keys == keys
  }

  /** The hops that name a caller. */
  function NamedHops(hops: seq<string>): (r: seq<string>)
    ensures forall i :: 0 <= i < |r| ==> !Blank(r[i])
  {
    if hops == [] then []
    else NamedHops(hops[..|hops| - 1]) + (if Blank(hops[|hops| - 1]) then [] else [hops[|hops| - 1]])
  }

  function ParseHop(v: Doc): Option<string> {
    if v.Str? then Some(v.s) else None
  }

  function ParseReachability(v: Doc): Option<Reachability> {
    if !HasKeys(v, {FPrimitive, FCallerChain}) || !NonBlankText(v.fields[FPrimitive]) || !v.fields[FCallerChain].Arr? then None
    else
      var hops := ParseList(ParseHop, v.fields[FCallerChain].items);
      if hops.None? then None else Some(Reachability(v.fields[FPrimitive].s, NamedHops(hops.value)))
  }

  function ParseDriftNote(v: Doc): Option<DriftNote> {
    if !v.Obj? then None
    else if FUnexercised !in v.fields then
      if HasKeys(v, {FNote}) && NonBlankText(v.fields[FNote]) then Some(DriftNote(v.fields[FNote].s, None)) else None
    else if !HasKeys(v, {FNote, FUnexercised}) || !NonBlankText(v.fields[FNote]) then None
    else
      var u := v.fields[FUnexercised];
      if HasKeys(u, {FPrimitive, FSignature}) && NonBlankText(u.fields[FPrimitive]) && NonBlankText(u.fields[FSignature])
      then Some(DriftNote(v.fields[FNote].s, Some(Unexercised(u.fields[FPrimitive].s, u.fields[FSignature].s))))
      else None
  }

  function ParseReference(v: Doc): Option<Reference> {
    if !v.Obj? || FKind !in v.fields then None
    else if v.fields[FKind] == Str("adr-decision") then
      if HasKeys(v, {FKind, FStem, FDecision}) && NonBlankText(v.fields[FStem])
         && v.fields[FDecision].Num? && IsInteger(v.fields[FDecision].n)
      then Some(AdrDecision(v.fields[FStem].s, v.fields[FDecision].n.Floor)) else None
    else if v.fields[FKind] == Str("plan-task") then
      if HasKeys(v, {FKind, FTaskId}) && NonBlankText(v.fields[FTaskId])
      then Some(PlanTask(v.fields[FTaskId].s)) else None
    else None
  }

  function ParseFinding(v: Doc): Option<Finding> {
    if !v.Obj? || FId in v.fields || FSummary !in v.fields || FClass !in v.fields || !NonBlankText(v.fields[FSummary]) then None
    else if v.fields[FClass] == Str("REMEDIABLE") then
      if !HasKeys(v, {FClass, FReference, FSummary}) || ParseReference(v.fields[FReference]).None? then None
      else Some(Remediable(ParseReference(v.fields[FReference]).value, v.fields[FSummary].s))
    else if v.fields[FClass] == Str("DESIGN") then
      if FReference !in v.fields then
        if HasKeys(v, {FClass, FSummary}) then Some(Design(None, v.fields[FSummary].s)) else None
      else if !HasKeys(v, {FClass, FReference, FSummary}) || ParseReference(v.fields[FReference]).None? then None
      else Some(Design(ParseReference(v.fields[FReference]), v.fields[FSummary].s))
    else None
  }

  // ---------- the whole verdict ----------

  predicate IsEmptyValue(v: Doc) {
    v.Null? || (v.Str? && Blank(v.s)) || (v.Arr? && v.items == [])
  }

  /** Fields of another verdict, which a provider may fill in because the schema is flat.
      Findings count as foreign only when empty. */
  predicate IsForeign(o: Fields, key: Field) {
    var verdict := if FVerdict in o then o[FVerdict] else Null;
    match key
    case FOutcomeDelivered => verdict != Str("PLAN_GAP")
    case FAffectedOutcome => verdict != Str("PLAN_GAP")
    case FViolations => verdict != Str("BLOCKED")
    case FResolution => verdict != Str("BLOCKED")
    case FFindings => verdict != Str("BLOCKED") && key in o && IsEmptyValue(o[key])
    case _ => false
  }

  function WithoutForeign(o: Fields): Fields {
    map key | key in o && !IsForeign(o, key) :: o[key]
  }

  const COMMON: set<Field> := {FVersion, FVerdict, FReachability, FDriftNotes}

  predicate IsApproval(v: Doc) {
    v == Str("APPROVED") || v == Str("APPROVED WITH DRIFT NOTES")
  }

  function ParseOutcome(o: Fields): Option<Outcome<Finding>>
    requires FVerdict in o
  {
    var verdict := o[FVerdict];
    if IsApproval(verdict) then
      if o.Keys != COMMON then None
      else Some(if verdict == Str("APPROVED") then Approved else ApprovedWithDriftNotes)
    else if verdict == Str("PLAN_GAP") then
      if o.Keys == COMMON + {FOutcomeDelivered, FAffectedOutcome} && o[FOutcomeDelivered].Bool? && NonBlankText(o[FAffectedOutcome])
      then Some(PlanGap(o[FOutcomeDelivered].b, o[FAffectedOutcome].s)) else None
    else if verdict == Str("BLOCKED") then
      if o.Keys != COMMON + {FFindings, FViolations, FResolution} || !o[FFindings].Arr?
         || !NonBlankText(o[FViolations]) || !NonBlankText(o[FResolution]) then None
      else
        var findings := ParseList(ParseFinding, o[FFindings].items);
        if findings.None? then None else Some(Blocked(findings.value, o[FViolations].s, o[FResolution].s))
    else None
  }

  predicate Reachable(rs: seq<Reachability>) {
    forall i :: 0 <= i < |rs| ==> rs[i].callerChain != []
  }

  /** The contract: the verdict a document is accepted as, if it is accepted. */
  function Validate(v: Doc): Option<ProviderVerdict> {
    if !v.Obj? then None
    else if FVerdict in v.fields && IsApproval(v.fields[FVerdict])
            && FOutcomeDelivered in v.fields && v.fields[FOutcomeDelivered] == Bool(false) then None
    else
      var o := WithoutForeign(v.fields);
      if !(COMMON <= o.Keys) || o[FVersion] != Str("v2") || !o[FReachability].Arr? || !o[FDriftNotes].Arr? then None
      else
        var reachability := ParseList(ParseReachability, o[FReachability].items);
        var driftNotes := ParseList(ParseDriftNote, o[FDriftNotes].items);
        var outcome := ParseOutcome(o);
        if reachability.None? || driftNotes.None? || outcome.None? then None
        else if !Reachable(reachability.value) && o[FVerdict] != Str("BLOCKED") then None
        else Some(Verdict(reachability.value, driftNotes.value, outcome.value))
  }

  // ---------- writing ----------

  function PrintHop(s: string): Doc {
    Str(s)
  }

  function PrintReachability(r: Reachability): Doc {
    Obj(map[FPrimitive := Str(r.primitive), FCallerChain := Arr(PrintList(PrintHop, r.callerChain))])
  }

  function PrintDriftNote(d: DriftNote): Doc {
    Obj(match d.unexercised
        case None => map[FNote := Str(d.note)]
        case Some(u) =>
          map[FNote := Str(d.note),
              FUnexercised := Obj(map[FPrimitive := Str(u.primitive), FSignature := Str(u.signature)])])
  }

  function PrintReference(r: Reference): Doc {
    Obj(match r
        case AdrDecision(stem, decision) =>
          map[FKind := Str("adr-decision"), FStem := Str(stem), FDecision := Num(decision as real)]
        case PlanTask(taskId) => map[FKind := Str("plan-task"), FTaskId := Str(taskId)])
  }

  function PrintFindingFields(f: Finding): Fields {
    match f
    case Remediable(r, summary) =>
      map[FClass := Str("REMEDIABLE"), FReference := PrintReference(r), FSummary := Str(summary)]
    case Design(None, summary) => map[FClass := Str("DESIGN"), FSummary := Str(summary)]
    case Design(Some(r), summary) =>
      map[FClass := Str("DESIGN"), FReference := PrintReference(r), FSummary := Str(summary)]
  }

  function PrintFinding(f: Finding): Doc {
    Obj(PrintFindingFields(f))
  }

  function PrintStamped(f: StampedFinding): Doc {
    Obj(PrintFindingFields(f.finding)[FId := Str(f.id)])
  }

  function OutcomeName<F>(o: Outcome<F>): string {
    match o
    case Approved => "APPROVED"
    case ApprovedWithDriftNotes => "APPROVED WITH DRIFT NOTES"
    case PlanGap(_, _) => "PLAN_GAP"
    case Blocked(_, _, _) => "BLOCKED"
  }

  function PrintOutcome<F>(print_: F -> Doc, o: Outcome<F>): Fields {
    match o
    case Approved => map[]
    case ApprovedWithDriftNotes => map[]
    case PlanGap(delivered, affected) => map[FOutcomeDelivered := Bool(delivered), FAffectedOutcome := Str(affected)]
    case Blocked(findings, violations, resolution) =>
      map[FFindings := Arr(PrintList(print_, findings)), FViolations := Str(violations), FResolution := Str(resolution)]
  }

  function PrintCommon<F>(v: Verdict<F>): Fields {
    map[FVersion := Str("v2"), FVerdict := Str(OutcomeName(v.outcome)),
        FReachability := Arr(PrintList(PrintReachability, v.reachability)),
        FDriftNotes := Arr(PrintList(PrintDriftNote, v.driftNotes))]
  }

  function PrintVerdict<F>(print_: F -> Doc, v: Verdict<F>): Doc {
    Obj(PrintCommon(v) + PrintOutcome(print_, v.outcome))
  }

  // ---------- validity ----------

  predicate ValidReachability(r: Reachability) {
    !Blank(r.primitive) && forall i :: 0 <= i < |r.callerChain| ==> !Blank(r.callerChain[i])
  }

  predicate ValidDriftNote(d: DriftNote) {
    !Blank(d.note) && (d.unexercised.Some? ==> !Blank(d.unexercised.value.primitive) && !Blank(d.unexercised.value.signature))
  }

  predicate ValidReference(r: Reference) {
    match r
    case AdrDecision(stem, _) => !Blank(stem)
    case PlanTask(taskId) => !Blank(taskId)
  }

  predicate ValidFinding(f: Finding) {
    match f
    case Remediable(r, summary) => ValidReference(r) && !Blank(summary)
    case Design(r, summary) => (r.Some? ==> ValidReference(r.value)) && !Blank(summary)
  }

  predicate ValidVerdict(v: ProviderVerdict) {
    && (forall i :: 0 <= i < |v.reachability| ==> ValidReachability(v.reachability[i]))
    && (forall i :: 0 <= i < |v.driftNotes| ==> ValidDriftNote(v.driftNotes[i]))
    && (!v.outcome.Blocked? ==> Reachable(v.reachability))
    && match v.outcome
       case PlanGap(_, affected) => !Blank(affected)
       case Blocked(findings, violations, resolution) =>
         && (forall i :: 0 <= i < |findings| ==> ValidFinding(findings[i]))
         && !Blank(violations) && !Blank(resolution)
       case _ => true
  }

  // ---------- a validated verdict is a fixed point ----------

  lemma {:induction false} NamedHopsKept(hops: seq<string>)
    requires forall i :: 0 <= i < |hops| ==> !Blank(hops[i])
    ensures NamedHops(hops) == hops
  {
    hide Blank;
    if hops == [] {
    } else {
      NamedHopsKept(hops[..|hops| - 1]);
      assert hops == hops[..|hops| - 1] + [hops[|hops| - 1]];
    }
  }

  lemma ReachabilityKept(r: Reachability)
    requires ValidReachability(r)
    ensures ParseReachability(PrintReachability(r)) == Some(r)
  {
    var o := PrintReachability(r).fields;
    assert o.Keys == {FPrimitive, FCallerChain};
    ParseListPointwise(ParseHop, PrintList(PrintHop, r.callerChain), r.callerChain);
    NamedHopsKept(r.callerChain);
  }

  lemma ParsedReachability(v: Doc)
    ensures ParseReachability(v).Some? ==> ValidReachability(ParseReachability(v).value)
  {
  }

  lemma DriftNoteKept(d: DriftNote)
    requires ValidDriftNote(d)
    ensures ParseDriftNote(PrintDriftNote(d)) == Some(d)
  {
    var o := PrintDriftNote(d).fields;
    if d.unexercised.Some? {
      assert o.Keys == {FNote, FUnexercised};
      assert o[FUnexercised].fields.Keys == {FPrimitive, FSignature};
    } else {
      assert o.Keys == {FNote};
    }
  }

  lemma ReferenceKept(r: Reference)
    requires ValidReference(r)
    ensures ParseReference(PrintReference(r)) == Some(r)
  {
    var o := PrintReference(r).fields;
    assert "adr-decision"[0] != "plan-task"[0];
    if r.AdrDecision? {
      assert o.Keys == {FKind, FStem, FDecision};
    } else {
      assert o.Keys == {FKind, FTaskId};
    }
  }

  lemma FindingKept(f: Finding)
    requires ValidFinding(f)
    ensures ParseFinding(PrintFinding(f)) == Some(f)
  {
    hide ParseReference, PrintReference, ValidReference;
    var o := PrintFindingFields(f);
    assert "REMEDIABLE"[0] != "DESIGN"[0];
    match f
    case Remediable(r, _) =>
      ReferenceKept(r);
      assert o.Keys == {FClass, FReference, FSummary};
    case Design(None, _) =>
      assert o.Keys == {FClass, FSummary};
    case Design(Some(r), _) =>
      ReferenceKept(r);
      assert o.Keys == {FClass, FReference, FSummary};
  }

  lemma FindingsKept(fs: seq<Finding>)
    requires forall i :: 0 <= i < |fs| ==> ValidFinding(fs[i])
    ensures ParseList(ParseFinding, PrintList(PrintFinding, fs)) == Some(fs)
  {
    forall i | 0 <= i < |fs|
      ensures ParseFinding(PrintList(PrintFinding, fs)[i]) == Some(fs[i])
    {
      FindingKept(fs[i]);
    }
    ParseListPointwise(ParseFinding, PrintList(PrintFinding, fs), fs);
  }

  lemma ReachabilitiesKept(rs: seq<Reachability>)
    requires forall i :: 0 <= i < |rs| ==> ValidReachability(rs[i])
    ensures ParseList(ParseReachability, PrintList(PrintReachability, rs)) == Some(rs)
  {
    forall i | 0 <= i < |rs|
      ensures ParseReachability(PrintList(PrintReachability, rs)[i]) == Some(rs[i])
    {
      ReachabilityKept(rs[i]);
    }
    ParseListPointwise(ParseReachability, PrintList(PrintReachability, rs), rs);
  }

  lemma DriftNotesKept(ds: seq<DriftNote>)
    requires forall i :: 0 <= i < |ds| ==> ValidDriftNote(ds[i])
    ensures ParseList(ParseDriftNote, PrintList(PrintDriftNote, ds)) == Some(ds)
  {
    forall i | 0 <= i < |ds|
      ensures ParseDriftNote(PrintList(PrintDriftNote, ds)[i]) == Some(ds[i])
    {
      DriftNoteKept(ds[i]);
    }
    ParseListPointwise(ParseDriftNote, PrintList(PrintDriftNote, ds), ds);
  }

  /** What the four verdict names say about a printed verdict. */
  lemma NameOf<F>(o: Outcome<F>)
    ensures var name: Doc := Str(OutcomeName(o));
            && (IsApproval(name) <==> o.Approved? || o.ApprovedWithDriftNotes?)
            && (name == Str("APPROVED") <==> o.Approved?)
            && (name == Str("PLAN_GAP") <==> o.PlanGap?)
            && (name == Str("BLOCKED") <==> o.Blocked?)
  {
    assert |"APPROVED"| == 8 && |"APPROVED WITH DRIFT NOTES"| == 25 && |"PLAN_GAP"| == 8 && |"BLOCKED"| == 7;
    assert "APPROVED"[0] != "PLAN_GAP"[0];
  }

  lemma PrintedKeys<F>(print_: F -> Doc, v: Verdict<F>)
    ensures PrintVerdict(print_, v).Obj?
    ensures var o := PrintVerdict(print_, v).fields;
            && o[FVersion] == Str("v2") && o[FVerdict] == Str(OutcomeName(v.outcome))
            && o[FReachability] == Arr(PrintList(PrintReachability, v.reachability))
            && o[FDriftNotes] == Arr(PrintList(PrintDriftNote, v.driftNotes))
            && o.Keys == COMMON +
                 (match v.outcome
                  case PlanGap(_, _) => {FOutcomeDelivered, FAffectedOutcome}
                  case Blocked(_, _, _) => {FFindings, FViolations, FResolution}
                  case _ => {})
  {
    var o := PrintVerdict(print_, v).fields;
    assert PrintCommon(v).Keys == COMMON;
  }

  /** A printed verdict has no foreign fields. */
  lemma NothingForeign<F>(print_: F -> Doc, v: Verdict<F>)
    ensures WithoutForeign(PrintVerdict(print_, v).fields) == PrintVerdict(print_, v).fields
  {
    PrintedKeys(print_, v);
    NameOf(v.outcome);
    var o := PrintVerdict(print_, v).fields;
    forall key | key in o
      ensures !IsForeign(o, key)
    {
    }
  }

  lemma OutcomeKept(v: ProviderVerdict)
    requires ValidVerdict(v)
    ensures ParseOutcome(PrintVerdict(PrintFinding, v).fields) == Some(v.outcome)
  {
    hide ParseReachability, ParseDriftNote, ParseFinding, PrintReachability, PrintDriftNote, PrintFinding,
         ValidReachability, ValidDriftNote, ValidFinding, OutcomeName, WithoutForeign;
    PrintedKeys(PrintFinding, v);
    NameOf(v.outcome);
    if v.outcome.Blocked? {
      FindingsKept(v.outcome.findings);
    }
  }

  /** Validation accepts a valid verdict's own document, as that verdict. */
  lemma ValidateKept(v: ProviderVerdict)
    requires ValidVerdict(v)
    ensures Validate(PrintVerdict(PrintFinding, v)) == Some(v)
  {
    hide ParseReachability, ParseDriftNote, ParseFinding, ParseOutcome, PrintReachability, PrintDriftNote, PrintFinding,
         ValidReachability, ValidDriftNote, ValidFinding, PrintVerdict, WithoutForeign;
    PrintedKeys(PrintFinding, v);
    NameOf(v.outcome);
    NothingForeign(PrintFinding, v);
    ReachabilitiesKept(v.reachability);
    DriftNotesKept(v.driftNotes);
    OutcomeKept(v);
  }

  lemma {:induction false} ParsedAll<A, B>(parse: A -> Option<B>, ok: B -> bool, xs: seq<A>)
    requires forall i :: 0 <= i < |xs| && parse(xs[i]).Some? ==> ok(parse(xs[i]).value)
    ensures ParseList(parse, xs).Some? ==>
              forall i :: 0 <= i < |ParseList(parse, xs).value| ==> ok(ParseList(parse, xs).value[i])
  {
    if xs == [] {
    } else {
      ParsedAll(parse, ok, xs[..|xs| - 1]);
    }
  }

  lemma ParsedReference(v: Doc)
    ensures ParseReference(v).Some? ==> ValidReference(ParseReference(v).value)
  {
  }

  lemma ParsedFinding(v: Doc)
    ensures ParseFinding(v).Some? ==> ValidFinding(ParseFinding(v).value)
  {
    hide ParseReference, ValidReference;
    if v.Obj? && FReference in v.fields {
      ParsedReference(v.fields[FReference]);
    }
  }

  lemma ParsedOutcome(o: Fields)
    requires FVerdict in o && ParseOutcome(o).Some?
    ensures match ParseOutcome(o).value
            case PlanGap(_, affected) => !Blank(affected)
            case Blocked(findings, violations, resolution) =>
              && (forall i :: 0 <= i < |findings| ==> ValidFinding(findings[i]))
              && !Blank(violations) && !Blank(resolution)
            case _ => true
    ensures ParseOutcome(o).value.Blocked? <==> o[FVerdict] == Str("BLOCKED")
  {
    hide ParseFinding, ValidFinding;
    assert |"BLOCKED"| == 7 && |"APPROVED"| == 8 && |"PLAN_GAP"| == 8 && |"APPROVED WITH DRIFT NOTES"| == 25;
    if FFindings in o && o[FFindings].Arr? {
      forall i | 0 <= i < |o[FFindings].items| && ParseFinding(o[FFindings].items[i]).Some?
        ensures ValidFinding(ParseFinding(o[FFindings].items[i]).value)
      {
        ParsedFinding(o[FFindings].items[i]);
      }
      ParsedAll(ParseFinding, ValidFinding, o[FFindings].items);
    }
  }

  /** What validation accepts is valid. */
  lemma ValidatedIsValid(d: Doc)
    requires Validate(d).Some?
    ensures ValidVerdict(Validate(d).value)
  {
    hide ParseReachability, ParseDriftNote, ParseOutcome, ValidReachability, ValidDriftNote, ValidFinding, WithoutForeign;
    var o := WithoutForeign(d.fields);
    ParsedOutcome(o);
    forall i | 0 <= i < |o[FReachability].items| && ParseReachability(o[FReachability].items[i]).Some?
      ensures ValidReachability(ParseReachability(o[FReachability].items[i]).value)
    {
      ParsedReachability(o[FReachability].items[i]);
    }
    ParsedAll(ParseReachability, ValidReachability, o[FReachability].items);
    forall i | 0 <= i < |o[FDriftNotes].items| && ParseDriftNote(o[FDriftNotes].items[i]).Some?
      ensures ValidDriftNote(ParseDriftNote(o[FDriftNotes].items[i]).value)
    {
      ParsedDriftNote(o[FDriftNotes].items[i]);
    }
    ParsedAll(ParseDriftNote, ValidDriftNote, o[FDriftNotes].items);
  }

  lemma ParsedDriftNote(v: Doc)
    ensures ParseDriftNote(v).Some? ==> ValidDriftNote(ParseDriftNote(v).value)
  {
  }

  /** Validation is idempotent: whatever it makes of a document, it makes of its own result. */
  lemma ValidateIdempotent(d: Doc)
    requires Validate(d).Some?
    ensures Validate(PrintVerdict(PrintFinding, Validate(d).value)) == Validate(d)
  {
    hide Validate, ValidVerdict;
    ValidatedIsValid(d);
    ValidateKept(Validate(d).value);
  }

  // ---------- stamping ----------

  function StampFinding(attemptId: string, index: nat, f: Finding): StampedFinding {
    StampedFinding(f, FindingId(attemptId, index + 1))
  }

  function StampFindings(attemptId: string, fs: seq<Finding>): (ss: seq<StampedFinding>)
    ensures |ss| == |fs| && forall i :: 0 <= i < |fs| ==> ss[i] == StampFinding(attemptId, i, fs[i])
  {
    seq(|fs|, i requires 0 <= i < |fs| => StampFinding(attemptId, i, fs[i]))
  }

  /** Gives each blocking finding its attempt-qualified id. */
  function Stamp(v: ProviderVerdict, attemptId: string): StampedVerdict {
    Verdict(v.reachability, v.driftNotes,
            match v.outcome
            case Approved => Approved
            case ApprovedWithDriftNotes => ApprovedWithDriftNotes
            case PlanGap(delivered, affected) => PlanGap(delivered, affected)
            case Blocked(findings, violations, resolution) => Blocked(StampFindings(attemptId, findings), violations, resolution))
  }

  /** Stamped findings of one or of two attempts have different ids. */
  lemma StampsDistinct(a: string, b: string, fs: seq<Finding>, gs: seq<Finding>, i: nat, j: nat)
    requires i < |fs| && j < |gs|
    requires StampFindings(a, fs)[i].id == StampFindings(b, gs)[j].id
    ensures a == b && i == j
  {
    FindingIdInjective(a, i + 1, b, j + 1);
  }
}
