/** Which verdict files are read, and as what. */
module AsBuiltReading {
  import opened Json
  import opened FindingIds
  import opened AsBuiltVerdict
  import opened AsBuiltAcceptance
  import opened AsBuiltVerdictStore

  // ---------- the stored verdict ----------

  /** The stored document is that of `v` with its findings stamped: a document accepted as `v`,
      in which a blocked verdict's findings carry the ids of their attempt and order. */
  predicate StoresVerdict(o: Fields, v: ProviderVerdict, attemptId: string) {
    if Has(o, FVerdict, Str("BLOCKED")) then
      && v.outcome.Blocked?
      && Has(o, FFindings, Arr(PrintList(PrintStamped, StampFindings(attemptId, v.outcome.findings))))
      && Validate(Obj(o[FFindings := Arr(PrintList(PrintFinding, v.outcome.findings))])) == Some(v)
    else Validate(Obj(o)) == Some(v)
  }

  ghost predicate IsStored(o: Fields, w: StampedVerdict, attemptId: string) {
    exists v :: w == Stamp(v, attemptId) && StoresVerdict(o, v, attemptId)
  }

  lemma StripExactly(v: Doc, f: Finding, id: string)
    requires v.Obj? && Has(v.fields, FId, Str(id))
    ensures StripId(v) == Some(PrintFinding(f)) ==> v == PrintStamped(StampedFinding(f, id))
  {
    if StripId(v) == Some(PrintFinding(f)) {
      var kept := map key | key in v.fields && key != FId :: v.fields[key];
      assert v.fields == kept[FId := Str(id)];
    }
  }

  lemma StampsAreTexts(attemptId: string, fs: seq<Finding>)
    ensures forall i :: 0 <= i < |fs| ==> StampFindings(attemptId, fs)[i].id != ""
  {
  }

  lemma StampedBack(raw: seq<Doc>, attemptId: string, fs: seq<Finding>)
    ensures ParseList(StripId, raw) == Some(PrintList(PrintFinding, fs)) && IdsMatch(raw, StampFindings(attemptId, fs)) <==>
              raw == PrintList(PrintStamped, StampFindings(attemptId, fs))
  {
    hide PrintFinding, PrintStamped, StripId, StampFinding;
    var ss := StampFindings(attemptId, fs);
    StampsAreTexts(attemptId, fs);
    if raw == PrintList(PrintStamped, ss) {
      StripAll(ss);
      PlainStamped(attemptId, fs);
      PrintedIds(ss, ss);
    }
    if ParseList(StripId, raw) == Some(PrintList(PrintFinding, fs)) && IdsMatch(raw, ss) {
      ParseListPointwise(StripId, raw, PrintList(PrintFinding, fs));
      forall i | 0 <= i < |raw|
        ensures raw[i] == PrintStamped(ss[i])
      {
        StampOf(attemptId, fs, i);
        StripExactly(raw[i], fs[i], ss[i].id);
      }
    }
  }

  lemma StampOf(attemptId: string, fs: seq<Finding>, i: nat)
    requires i < |fs|
    ensures StampFindings(attemptId, fs)[i] == StampedFinding(fs[i], StampFindings(attemptId, fs)[i].id)
  {
  }

  lemma BlockedFindings(o: Fields, stripped: seq<Doc>, v: ProviderVerdict)
    requires Has(o, FVerdict, Str("BLOCKED")) && Validate(Obj(o[FFindings := Arr(stripped)])) == Some(v)
    ensures v.outcome.Blocked? && stripped == PrintList(PrintFinding, v.outcome.findings)
  {
    hide Validate, ValidVerdict, HasReachability, HasNotes;
    var d: Doc := Obj(o[FFindings := Arr(stripped)]);
    AcceptedExactly(d, v);
    VerdictNames();
    assert Has(d.fields, FVerdict, Str("BLOCKED"));
  }

  lemma StoredExactly(o: Fields, attemptId: string, w: StampedVerdict)
    ensures ValidatePersisted(Obj(o), attemptId) == Some(w) <==> IsStored(o, w, attemptId)
  {
    hide Validate, Stamp, StripId, IdsMatch, PrintStamped, PrintFinding, ParseList, PrintList;
    if Has(o, FVerdict, Str("BLOCKED")) && FFindings in o && o[FFindings].Arr? {
      var raw := o[FFindings].items;
      var stripped := ParseList(StripId, raw);
      if stripped.Some? {
        var checked := Validate(Obj(o[FFindings := Arr(stripped.value)]));
        if checked.Some? {
          BlockedFindings(o, stripped.value, checked.value);
          StampedBack(raw, attemptId, checked.value.outcome.findings);
          StampedFindings(checked.value, attemptId);
        }
      }
      forall v | w == Stamp(v, attemptId) && StoresVerdict(o, v, attemptId)
        ensures ValidatePersisted(Obj(o), attemptId) == Some(w)
      {
        StampedBack(raw, attemptId, v.outcome.findings);
        StampedFindings(v, attemptId);
      }
    }
  }

  lemma StampedFindings(v: ProviderVerdict, attemptId: string)
    requires v.outcome.Blocked?
    ensures Stamp(v, attemptId).outcome.Blocked? && Stamp(v, attemptId).outcome.findings == StampFindings(attemptId, v.outcome.findings)
  {
  }

  // ---------- the envelope ----------

  predicate IsSwitch(o: Fields, check: Field) {
    && check in o && o[check].Obj?
    && FEnabled in o[check].fields && o[check].fields[FEnabled].Bool?
    && FReason in o[check].fields && o[check].fields[FReason].Str?
  }

  /** A recorded finding has its four texts, a class, and, if it is remediable or names one, a
      proper reference. */
  predicate IsRecorded(v: Doc) {
    && v.Obj?
    && (forall key :: key in {FId, FSummary, FOutcome, FClass} ==> key in v.fields && v.fields[key].Str?)
    && v.fields[FClass].s in {"REMEDIABLE", "DESIGN"}
    && (v.fields[FClass].s == "REMEDIABLE" ==> FReference in v.fields)
    && (FReference in v.fields ==> ParseReference(v.fields[FReference]).Some?)
  }

  predicate IsEnvelope(o: Fields, p: Persisted) {
    && p.attemptId != "" && Has(o, FAttemptId, Str(p.attemptId))
    && Has(o, FCodeStamp, if p.codeStamp.Some? then Str(p.codeStamp.value) else Null)
    && Has(o, FPolicy, p.policy) && p.policy.Obj?
    && IsSwitch(p.policy.fields, FCheckReachability) && IsSwitch(p.policy.fields, FCheckPlanGap)
    && IsSwitch(p.policy.fields, FCheckAdrCompliance) && IsSwitch(p.policy.fields, FCheckDiagramDrift)
    && Has(o, FRecordedFindings, Arr(p.recordedFindings))
  }

  predicate IsPrior(o: Fields) {
    FVerdict in o && o[FVerdict].Obj? && Has(o[FVerdict].fields, FVersion, Str("v1"))
  }

  lemma RecordedExactly(v: Doc)
    ensures ValidRecordedFinding(v) <==> IsRecorded(v)
  {
    hide ParseReference;
    assert "REMEDIABLE"[0] != "DESIGN"[0];
  }

  lemma AllRecorded(vs: seq<Doc>)
    ensures (exists f :: f in vs && !ValidRecordedFinding(f)) <==> !(forall k :: 0 <= k < |vs| ==> IsRecorded(vs[k]))
  {
    hide ValidRecordedFinding, IsRecorded;
    forall v
      ensures ValidRecordedFinding(v) <==> IsRecorded(v)
    {
      RecordedExactly(v);
    }
    if f :| f in vs && !ValidRecordedFinding(f) {
      var k :| 0 <= k < |vs| && vs[k] == f;
      assert !IsRecorded(vs[k]);
    }
    if k :| 0 <= k < |vs| && !IsRecorded(vs[k]) {
      assert vs[k] in vs;
    }
  }

  /** The file holds `p`: its envelope, recorded findings of the proper shape, and a document
      that stores its verdict. */
  ghost predicate IsFileOf(file: File, p: Persisted) {
    && file.Document? && file.value.Obj?
    && IsEnvelope(file.value.fields, p) && !IsPrior(file.value.fields)
    && (forall k :: 0 <= k < |p.recordedFindings| ==> IsRecorded(p.recordedFindings[k]))
    && FVerdict in file.value.fields && file.value.fields[FVerdict].Obj?
    && IsStored(file.value.fields[FVerdict].fields, p.verdict, p.attemptId)
  }

  /** Every outcome of a read: a verdict exactly from a file of it, nothing exactly from no
      file, a prior version exactly from an envelope around a first-version verdict, and
      otherwise the file is unreadable. */
  lemma ReadExactly(file: File)
    ensures forall p :: Read(file) == AsBuiltVerdictStore.Present(p) <==> IsFileOf(file, p)
    ensures Read(file) == AsBuiltVerdictStore.Absent <==> file == NoFile
    ensures Read(file) == PriorVersion <==>
              file.Document? && file.value.Obj? && IsPrior(file.value.fields) && exists p :: IsEnvelope(file.value.fields, p)
  {
    hide ValidatePersisted, ValidRecordedFinding, IsRecorded, IsStored, IsEnvelope, ValidPolicy;
    if file.Document? && file.value.Obj? {
      var o := file.value.fields;
      EnvelopeExactly(o);
      if FRecordedFindings in o && o[FRecordedFindings].Arr? {
        AllRecorded(o[FRecordedFindings].items);
      }
      forall p
        ensures Read(file) == AsBuiltVerdictStore.Present(p) <==> IsFileOf(file, p)
      {
        if FVerdict in o && o[FVerdict].Obj? {
          StoredExactly(o[FVerdict].fields, p.attemptId, p.verdict);
        } else if FVerdict in o {
          NoObjectStored(o[FVerdict]);
        }
      }
    }
  }

  lemma NoObjectStored(v: Doc)
    requires !v.Obj?
    ensures forall id :: ValidatePersisted(v, id).None?
  {
  }

  /** The fields an envelope must have, before its verdict is looked at. */
  predicate HasEnvelope(o: Fields) {
    && FAttemptId in o && o[FAttemptId].Str? && o[FAttemptId].s != ""
    && FCodeStamp in o && (o[FCodeStamp].Null? || o[FCodeStamp].Str?)
    && FPolicy in o && ValidPolicy(o[FPolicy])
    && FRecordedFindings in o && o[FRecordedFindings].Arr?
  }

  lemma EnvelopeExactly(o: Fields)
    ensures HasEnvelope(o) <==> exists p :: IsEnvelope(o, p)
    ensures forall p :: IsEnvelope(o, p) <==>
              && HasEnvelope(o)
              && p.attemptId == o[FAttemptId].s && p.policy == o[FPolicy] && p.recordedFindings == o[FRecordedFindings].items
              && p.codeStamp == if o[FCodeStamp].Str? then Some(o[FCodeStamp].s) else None
  {
    if HasEnvelope(o) {
      var p := Persisted(o[FAttemptId].s, if o[FCodeStamp].Str? then Some(o[FCodeStamp].s) else None,
                         Verdict([], [], Approved), o[FPolicy], o[FRecordedFindings].items);
      assert IsEnvelope(o, p);
    }
  }
}
