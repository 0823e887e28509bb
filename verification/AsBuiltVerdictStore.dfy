/** The persisted as-built verdict: an envelope written once per attempt and read back as the
    sole authority. */
module AsBuiltVerdictStore {
  import opened Json
  import opened FindingIds
  import opened AsBuiltVerdict

  /** Policy and recorded findings are passed through as documents. */
  datatype Persisted = Persisted(
    attemptId: string,
    codeStamp: Option<string>,
    verdict: StampedVerdict,
    policy: Doc,
    recordedFindings: seq<Doc>)

  /** The verdict file: absent, a text that is no JSON, or a document. */
  datatype File = NoFile | NotJson | Document(value: Doc)

  datatype ReadResult = Absent | PriorVersion | Unreadable | Present(value: Persisted)

  // ---------- the envelope ----------

  predicate ValidCheck(o: Fields, check: Field) {
    && check in o && o[check].Obj?
    && FEnabled in o[check].fields && o[check].fields[FEnabled].Bool?
    && FReason in o[check].fields && o[check].fields[FReason].Str?
  }

  predicate ValidPolicy(v: Doc) {
    && v.Obj?
    && ValidCheck(v.fields, FCheckReachability) && ValidCheck(v.fields, FCheckPlanGap)
    && ValidCheck(v.fields, FCheckAdrCompliance) && ValidCheck(v.fields, FCheckDiagramDrift)
  }

  predicate StrField(o: Fields, key: Field) {
    key in o && o[key].Str?
  }

  predicate ValidRecordedFinding(v: Doc) {
    && v.Obj?
    && StrField(v.fields, FId) && StrField(v.fields, FSummary) && StrField(v.fields, FOutcome) && StrField(v.fields, FClass)
    && if v.fields[FClass].s == "REMEDIABLE" then FReference in v.fields && ParseReference(v.fields[FReference]).Some?
       else
         && v.fields[FClass].s == "DESIGN"
         && (FReference in v.fields ==> ParseReference(v.fields[FReference]).Some?)
  }

  function PrintPersisted(p: Persisted): Doc {
    Obj(map[FAttemptId := Str(p.attemptId),
            FCodeStamp := if p.codeStamp.Some? then Str(p.codeStamp.value) else Null,
            FVerdict := PrintVerdict(PrintStamped, p.verdict),
            FPolicy := p.policy,
            FRecordedFindings := Arr(p.recordedFindings)])
  }

  // ---------- the persisted verdict ----------

  function StripId(v: Doc): Option<Doc> {
    if v.Obj? && FId in v.fields && v.fields[FId].Str? && v.fields[FId].s != ""
    then Some(Obj(map key | key in v.fields && key != FId :: v.fields[key])) else None
  }

  predicate IsBlocked(v: Doc) {
    v.Obj? && FVerdict in v.fields && v.fields[FVerdict] == Str("BLOCKED")
  }

  /** A blocked verdict must carry its stamped findings: each id is taken off, the rest is
      validated as a provider verdict, and stamping it again must give the same ids. */
  function ValidatePersisted(v: Doc, attemptId: string): Option<StampedVerdict> {
    if !v.Obj? then None
    else if !IsBlocked(v) then
      var checked := Validate(v);
      if checked.None? then None else Some(Stamp(checked.value, attemptId))
    else if FFindings !in v.fields || !v.fields[FFindings].Arr? then None
    else
      var raw := v.fields[FFindings].items;
      var stripped := ParseList(StripId, raw);
      if stripped.None? then None
      else
        var checked := Validate(Obj(v.fields[FFindings := Arr(stripped.value)]));
        if checked.None? then None
        else
          var stamped := Stamp(checked.value, attemptId);
          if stamped.outcome.Blocked? && !IdsMatch(raw, stamped.outcome.findings) then None
          else Some(stamped)
  }

  predicate IdsMatch(raw: seq<Doc>, stamped: seq<StampedFinding>) {
    && |raw| == |stamped|
    && forall i :: 0 <= i < |stamped| ==> raw[i].Obj? && FId in raw[i].fields && raw[i].fields[FId] == Str(stamped[i].id)
  }

  function Read(file: File): ReadResult {
    match file
    case NoFile => Absent
    case NotJson => Unreadable
    case Document(raw) =>
      if !raw.Obj? || !(FAttemptId in raw.fields && raw.fields[FAttemptId].Str? && raw.fields[FAttemptId].s != "")
         || !(FCodeStamp in raw.fields && (raw.fields[FCodeStamp].Null? || raw.fields[FCodeStamp].Str?))
         || !(FPolicy in raw.fields && ValidPolicy(raw.fields[FPolicy]))
         || !(FRecordedFindings in raw.fields && raw.fields[FRecordedFindings].Arr?) then Unreadable
      else if FVerdict !in raw.fields then Unreadable
      else
        var verdict := raw.fields[FVerdict];
        if verdict.Obj? && FVersion in verdict.fields && verdict.fields[FVersion] == Str("v1") then PriorVersion
        else
          var checked := ValidatePersisted(verdict, raw.fields[FAttemptId].s);
          if checked.None? then Unreadable
          else if exists f :: f in raw.fields[FRecordedFindings].items && !ValidRecordedFinding(f) then Unreadable
          else Present(Persisted(
            raw.fields[FAttemptId].s,
            if raw.fields[FCodeStamp].Str? then Some(raw.fields[FCodeStamp].s) else None,
            checked.value, raw.fields[FPolicy], raw.fields[FRecordedFindings].items))
  }

  /** The directory the verdict and its report live in. */
  class VerdictStore {
    var file: File

    constructor ()
      ensures file == NoFile
    {
      file := NoFile;
    }

    /** Stamps the verdict and replaces the file, then writes the report; either write may
        fail, and a failing report leaves the new verdict in place. */
    method Persist(verdict: ProviderVerdict, attemptId: string, codeStamp: Option<string>, policy: Doc,
                   recordedFindings: seq<Doc>, writeFails: bool, reportFails: bool) returns (value: Option<Persisted>)
      modifies this
      ensures var persisted := Persisted(attemptId, codeStamp, Stamp(verdict, attemptId), policy, recordedFindings);
              && value == (if writeFails || reportFails then None else Some(persisted))
              && file == if writeFails then old(file) else Document(PrintPersisted(persisted))
    {
      var stamped := Stamp(verdict, attemptId);
      var persisted := Persisted(attemptId, codeStamp, stamped, policy, recordedFindings);
      if writeFails {
        return None;
      }
      file := Document(PrintPersisted(persisted));
      return if reportFails then None else Some(persisted);
    }
  }

  // ---------- round trip ----------

  /** The provider verdict inside a stamped one. */
  function Unstamp(v: StampedVerdict): ProviderVerdict {
    Verdict(v.reachability, v.driftNotes,
            match v.outcome
            case Approved => Approved
            case ApprovedWithDriftNotes => ApprovedWithDriftNotes
            case PlanGap(delivered, affected) => PlanGap(delivered, affected)
            case Blocked(findings, violations, resolution) => Blocked(Plain(findings), violations, resolution))
  }

  function Plain(ss: seq<StampedFinding>): (fs: seq<Finding>)
    ensures |fs| == |ss| && forall i :: 0 <= i < |ss| ==> fs[i] == ss[i].finding
  {
    seq(|ss|, i requires 0 <= i < |ss| => ss[i].finding)
  }

  lemma PlainStamped(attemptId: string, fs: seq<Finding>)
    ensures Plain(StampFindings(attemptId, fs)) == fs
  {
  }

  lemma StripPrinted(f: StampedFinding)
    ensures StripId(PrintStamped(f)) == if f.id != "" then Some(PrintFinding(f.finding)) else None
  {
    var o := PrintFindingFields(f.finding);
    assert FId !in o;
    assert (map key | key in PrintStamped(f).fields && key != FId :: PrintStamped(f).fields[key]) == o;
  }

  lemma StripAll(ss: seq<StampedFinding>)
    requires forall i :: 0 <= i < |ss| ==> ss[i].id != ""
    ensures ParseList(StripId, PrintList(PrintStamped, ss)) == Some(PrintList(PrintFinding, Plain(ss)))
  {
    hide PrintStamped, StripId;
    forall i | 0 <= i < |ss|
      ensures StripId(PrintList(PrintStamped, ss)[i]) == Some(PrintList(PrintFinding, Plain(ss))[i])
    {
      StripPrinted(ss[i]);
    }
    ParseListPointwise(StripId, PrintList(PrintStamped, ss), PrintList(PrintFinding, Plain(ss)));
  }

  /** Taking the ids off a printed stamped verdict leaves the printed provider verdict. */
  lemma StrippedVerdict(w: StampedVerdict)
    requires w.outcome.Blocked?
    ensures var o := PrintVerdict(PrintStamped, w).fields;
            o[FFindings := Arr(PrintList(PrintFinding, Plain(w.outcome.findings)))]
            == PrintVerdict(PrintFinding, Unstamp(w)).fields
  {
  }

  lemma PrintedIds(ss: seq<StampedFinding>, ts: seq<StampedFinding>)
    requires |ss| == |ts|
    ensures IdsMatch(PrintList(PrintStamped, ss), ts) <==> forall i :: 0 <= i < |ss| ==> ss[i].id == ts[i].id
  {
    var raw := PrintList(PrintStamped, ss);
    assert forall i :: 0 <= i < |ss| ==> raw[i] == PrintStamped(ss[i]) && raw[i].fields[FId] == Str(ss[i].id);
  }

  /** A stored stamped verdict is readable exactly when its ids are the ones its attempt and
      its order give; any other finding id makes it unreadable. */
  lemma PersistedExactly(w: StampedVerdict, attemptId: string)
    requires ValidVerdict(Unstamp(w))
    ensures ValidatePersisted(PrintVerdict(PrintStamped, w), attemptId) ==
            if w == Stamp(Unstamp(w), attemptId) then Some(w) else None
  {
    hide Validate, ValidVerdict, PrintVerdict, PrintStamped, PrintFinding, StripId, IdsMatch;
    PrintedKeys(PrintStamped, w);
    NameOf(w.outcome);
    ValidateKept(Unstamp(w));
    if w.outcome.Blocked? {
      BlockedExactly(w, attemptId);
    } else {
      SameUnblocked(w);
    }
  }

  lemma SameUnblocked(w: StampedVerdict)
    requires !w.outcome.Blocked?
    ensures PrintVerdict(PrintStamped, w) == PrintVerdict(PrintFinding, Unstamp(w))
  {
  }

  lemma BlockedExactly(w: StampedVerdict, attemptId: string)
    requires ValidVerdict(Unstamp(w)) && w.outcome.Blocked?
    ensures ValidatePersisted(PrintVerdict(PrintStamped, w), attemptId) ==
            if w == Stamp(Unstamp(w), attemptId) then Some(w) else None
  {
    hide Validate, ValidVerdict, PrintStamped, PrintFinding, StripId, IdsMatch, PrintCommon, ParseList, PrintList, OutcomeName;
    PrintedKeys(PrintStamped, w);
    NameOf(w.outcome);
    ValidateKept(Unstamp(w));
    var ss := w.outcome.findings;
    var stamps := StampFindings(attemptId, Plain(ss));
    if forall i :: 0 <= i < |ss| ==> ss[i].id != "" {
      StripAll(ss);
      StrippedVerdict(w);
      PrintedIds(ss, stamps);
      if forall i :: 0 <= i < |ss| ==> ss[i].id == stamps[i].id {
        assert forall i :: 0 <= i < |ss| ==> ss[i] == stamps[i];
        assert ss == stamps;
      }
    } else {
      var i :| 0 <= i < |ss| && ss[i].id == "";
      StripPrinted(ss[i]);
      StripFails(ss, i);
      assert stamps[i].id != "";
    }
  }

  lemma StripFails(ss: seq<StampedFinding>, i: nat)
    requires i < |ss| && StripId(PrintStamped(ss[i])).None?
    ensures ParseList(StripId, PrintList(PrintStamped, ss)).None?
  {
    hide StripId, PrintStamped;
    var r := ParseList(StripId, PrintList(PrintStamped, ss));
    if r.Some? {
      ParseListPointwise(StripId, PrintList(PrintStamped, ss), r.value);
    }
  }

  lemma EnvelopeRead(p: Persisted)
    requires p.attemptId != "" && ValidPolicy(p.policy)
    requires forall f :: f in p.recordedFindings ==> ValidRecordedFinding(f)
    ensures var checked := ValidatePersisted(PrintVerdict(PrintStamped, p.verdict), p.attemptId);
            Read(Document(PrintPersisted(p))) ==
            if checked.None? then Unreadable else Present(p.(verdict := checked.value))
  {
    hide ValidatePersisted, ValidPolicy, ValidRecordedFinding, PrintVerdict;
    PrintedKeys(PrintStamped, p.verdict);
    assert "v2"[1] != "v1"[1];
  }

  /** Reading what was persisted gives back the same stamped value. */
  lemma RoundTrip(v: ProviderVerdict, attemptId: string, codeStamp: Option<string>, policy: Doc, recordedFindings: seq<Doc>)
    requires ValidVerdict(v) && attemptId != "" && ValidPolicy(policy)
    requires forall f :: f in recordedFindings ==> ValidRecordedFinding(f)
    ensures var value := Persisted(attemptId, codeStamp, Stamp(v, attemptId), policy, recordedFindings);
            Read(Document(PrintPersisted(value))) == Present(value)
  {
    hide ValidVerdict, ValidPolicy, ValidRecordedFinding, PrintVerdict, PrintPersisted, Read, ValidatePersisted;
    var value := Persisted(attemptId, codeStamp, Stamp(v, attemptId), policy, recordedFindings);
    if v.outcome.Blocked? {
      PlainStamped(attemptId, v.outcome.findings);
    }
    assert Unstamp(value.verdict) == v;
    PersistedExactly(value.verdict, attemptId);
    EnvelopeRead(value);
  }

  /** A stored verdict whose finding ids are not its attempt's stamps is never authority. */
  lemma ForeignIdsUnreadable(p: Persisted)
    requires p.attemptId != "" && ValidPolicy(p.policy) && ValidVerdict(Unstamp(p.verdict))
    requires forall f :: f in p.recordedFindings ==> ValidRecordedFinding(f)
    ensures Read(Document(PrintPersisted(p))) ==
            if p.verdict == Stamp(Unstamp(p.verdict), p.attemptId) then Present(p) else Unreadable
  {
    hide ValidVerdict, ValidPolicy, ValidRecordedFinding, PrintVerdict, PrintPersisted, Read, ValidatePersisted;
    PersistedExactly(p.verdict, p.attemptId);
    EnvelopeRead(p);
  }
}
