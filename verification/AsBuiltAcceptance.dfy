/** Which documents the as-built contract accepts, and as which verdict. */
module AsBuiltAcceptance {
  import opened Json
  import opened FindingIds
  import opened AsBuiltVerdict

  // ---------- the parts ----------

  lemma DriftNoteExactly(v: Doc, d: DriftNote)
    ensures ParseDriftNote(v) == Some(d) <==> v == PrintDriftNote(d) && ValidDriftNote(d)
  {
    if ValidDriftNote(d) {
      DriftNoteKept(d);
    }
    if ParseDriftNote(v) == Some(d) {
      var o := PrintDriftNote(d).fields;
      if d.unexercised.Some? {
        assert v.fields[FUnexercised].fields == o[FUnexercised].fields;
        assert v.fields[FUnexercised] == o[FUnexercised];
        assert v.fields == o;
      } else {
        assert v.fields == o;
      }
    }
  }

  lemma ReferenceExactly(v: Doc, r: Reference)
    ensures ParseReference(v) == Some(r) <==> v == PrintReference(r) && ValidReference(r)
  {
    if ValidReference(r) {
      ReferenceKept(r);
    }
    if ParseReference(v) == Some(r) {
      assert v.fields == PrintReference(r).fields;
    }
  }

  lemma FindingExactly(v: Doc, f: Finding)
    ensures ParseFinding(v) == Some(f) <==> v == PrintFinding(f) && ValidFinding(f)
  {
    hide ParseReference, PrintReference, ValidReference;
    if ValidFinding(f) {
      FindingKept(f);
    }
    if ParseFinding(v) == Some(f) {
      if FReference in v.fields {
        var r := ParseReference(v.fields[FReference]).value;
        ReferenceExactly(v.fields[FReference], r);
      }
      assert v.fields == PrintFindingFields(f);
    }
  }

  lemma {:induction false} HopByHop(a: seq<string>, b: seq<string>)
    ensures NamedHops(a + b) == NamedHops(a) + NamedHops(b)
  {
    hide Blank;
    if b == [] {
      assert a + b == a;
    } else {
      var n := |b| - 1;
      HopByHop(a, b[..n]);
      assert (a + b)[..|a + b| - 1] == a + b[..n] && (a + b)[|a + b| - 1] == b[n];
      assert NamedHops(a) + NamedHops(b) == (NamedHops(a) + NamedHops(b[..n])) + if Blank(b[n]) then [] else [b[n]];
    }
  }

  lemma OneHop(hop: string)
    ensures NamedHops([hop]) == if forall k :: 0 <= k < |hop| ==> IsSpace(hop[k]) then [] else [hop]
  {
    assert [hop][..0] == [];
  }

  /** The hops that name a caller: each is kept, in its place, unless it is nothing but spaces. */
  lemma HopAlone(before: seq<string>, hop: string, behind: seq<string>)
    ensures NamedHops([]) == []
    ensures NamedHops(before + [hop] + behind) ==
            NamedHops(before) + (if forall k :: 0 <= k < |hop| ==> IsSpace(hop[k]) then [] else [hop]) + NamedHops(behind)
  {
    hide NamedHops;
    NoHops();
    OneHop(hop);
    HopByHop(before, [hop]);
    HopByHop(before + [hop], behind);
  }

  lemma NoHops()
    ensures NamedHops([]) == []
  {
  }

  /** An entry with a primitive and the hops whose named ones are the caller chain. */
  ghost predicate Reads(v: Doc, r: Reachability) {
    && !Blank(r.primitive)
    && exists hops: seq<string> ::
         && v == Obj(map[FPrimitive := Str(r.primitive), FCallerChain := Arr(PrintList(PrintHop, hops))])
         && r.callerChain == NamedHops(hops)
  }

  lemma HopsExactly(items: seq<Doc>, hops: seq<string>)
    ensures ParseList(ParseHop, items) == Some(hops) <==> items == PrintList(PrintHop, hops)
  {
    ListCodec(ParseHop, PrintHop, _ => true, items, hops);
  }

  lemma ReachabilityExactly(v: Doc, r: Reachability)
    ensures ParseReachability(v) == Some(r) <==> Reads(v, r)
  {
    hide NamedHops;
    if ParseReachability(v) == Some(r) {
      var items := v.fields[FCallerChain].items;
      var hops := ParseList(ParseHop, items).value;
      HopsExactly(items, hops);
      assert v.fields == map[FPrimitive := Str(r.primitive), FCallerChain := Arr(PrintList(PrintHop, hops))];
    }
    if Reads(v, r) {
      var hops: seq<string> :| v == Obj(map[FPrimitive := Str(r.primitive), FCallerChain := Arr(PrintList(PrintHop, hops))])
                  && r.callerChain == NamedHops(hops);
      assert v.fields.Keys == {FPrimitive, FCallerChain};
      HopsExactly(v.fields[FCallerChain].items, hops);
    }
  }

  lemma ReachabilitiesExactly(items: seq<Doc>, rs: seq<Reachability>)
    ensures ParseList(ParseReachability, items) == Some(rs) <==>
              |items| == |rs| && forall i :: 0 <= i < |rs| ==> Reads(items[i], rs[i])
  {
    hide ParseReachability, Reads;
    ParseListPointwise(ParseReachability, items, rs);
    forall v, r
      ensures ParseReachability(v) == Some(r) <==> Reads(v, r)
    {
      ReachabilityExactly(v, r);
    }
  }

  lemma DriftNotesExactly(items: seq<Doc>, ds: seq<DriftNote>)
    ensures ParseList(ParseDriftNote, items) == Some(ds) <==>
              items == PrintList(PrintDriftNote, ds) && forall i :: 0 <= i < |ds| ==> ValidDriftNote(ds[i])
  {
    hide ParseDriftNote, PrintDriftNote, ValidDriftNote;
    forall v, d
      ensures ParseDriftNote(v) == Some(d) <==> v == PrintDriftNote(d) && ValidDriftNote(d)
    {
      DriftNoteExactly(v, d);
    }
    ListCodec(ParseDriftNote, PrintDriftNote, ValidDriftNote, items, ds);
  }

  lemma FindingsExactly(items: seq<Doc>, fs: seq<Finding>)
    ensures ParseList(ParseFinding, items) == Some(fs) <==>
              items == PrintList(PrintFinding, fs) && forall i :: 0 <= i < |fs| ==> ValidFinding(fs[i])
  {
    hide ParseFinding, PrintFinding, ValidFinding;
    forall v, f
      ensures ParseFinding(v) == Some(f) <==> v == PrintFinding(f) && ValidFinding(f)
    {
      FindingExactly(v, f);
    }
    ListCodec(ParseFinding, PrintFinding, ValidFinding, items, fs);
  }

  // ---------- the whole document ----------

  predicate Has(o: Fields, key: Field, v: Doc) {
    key in o && o[key] == v
  }

  /** The field is missing, null, an empty list or a blank text. */
  predicate EmptyOrMissing(o: Fields, key: Field) {
    key in o ==> o[key] == Null || o[key] == Arr([]) || (o[key].Str? && Blank(o[key].s))
  }

  const VARIANT: set<Field> := {FOutcomeDelivered, FAffectedOutcome, FFindings, FViolations, FResolution}

  predicate HasNotes(o: Fields, v: ProviderVerdict) {
    Has(o, FDriftNotes, Arr(PrintList(PrintDriftNote, v.driftNotes)))
  }

  ghost predicate HasReachability(o: Fields, v: ProviderVerdict) {
    && FReachability in o && o[FReachability].Arr? && |o[FReachability].items| == |v.reachability|
    && forall i :: 0 <= i < |v.reachability| ==> Reads(o[FReachability].items[i], v.reachability[i])
  }

  /** What the document says under the fields of its own verdict.  Under the fields of another
      one it may say anything, except that findings must be empty outside a blocked verdict
      and that an approval must not report an undelivered outcome. */
  predicate HasOutcome(o: Fields, v: ProviderVerdict) {
    match v.outcome
    case Approved => Has(o, FVerdict, Str("APPROVED")) && !Has(o, FOutcomeDelivered, Bool(false)) && EmptyOrMissing(o, FFindings)
    case ApprovedWithDriftNotes =>
      && Has(o, FVerdict, Str("APPROVED WITH DRIFT NOTES"))
      && !Has(o, FOutcomeDelivered, Bool(false)) && EmptyOrMissing(o, FFindings)
    case PlanGap(delivered, affected) =>
      && Has(o, FVerdict, Str("PLAN_GAP"))
      && Has(o, FOutcomeDelivered, Bool(delivered)) && Has(o, FAffectedOutcome, Str(affected)) && EmptyOrMissing(o, FFindings)
    case Blocked(findings, violations, resolution) =>
      && Has(o, FVerdict, Str("BLOCKED"))
      && Has(o, FFindings, Arr(PrintList(PrintFinding, findings)))
      && Has(o, FViolations, Str(violations)) && Has(o, FResolution, Str(resolution))
  }

  lemma VerdictNames()
    ensures "APPROVED" != "APPROVED WITH DRIFT NOTES" && "APPROVED" != "PLAN_GAP" && "APPROVED" != "BLOCKED"
    ensures "APPROVED WITH DRIFT NOTES" != "PLAN_GAP" && "APPROVED WITH DRIFT NOTES" != "BLOCKED" && "PLAN_GAP" != "BLOCKED"
  {
    assert |"APPROVED"| == 8 && |"APPROVED WITH DRIFT NOTES"| == 25 && |"PLAN_GAP"| == 8 && |"BLOCKED"| == 7;
    assert "APPROVED"[0] != "PLAN_GAP"[0];
  }

  lemma EmptyExactly(o: Fields, key: Field)
    ensures EmptyOrMissing(o, key) <==> key !in o || IsEmptyValue(o[key])
  {
  }

  /** What is left of a document once foreign fields are dropped. */
  lemma LeftOver(o: Fields)
    ensures forall key :: key in COMMON ==> (key in WithoutForeign(o) <==> key in o) && (key in o ==> WithoutForeign(o)[key] == o[key])
    ensures var w, verdict := WithoutForeign(o), if FVerdict in o then o[FVerdict] else Null;
            && (w.Keys <= COMMON + VARIANT <==> o.Keys <= COMMON + VARIANT)
            && (forall key :: key in {FOutcomeDelivered, FAffectedOutcome} ==> (key in w <==> key in o && verdict == Str("PLAN_GAP")))
            && (forall key :: key in {FViolations, FResolution} ==> (key in w <==> key in o && verdict == Str("BLOCKED")))
            && (FFindings in w <==> FFindings in o && (verdict == Str("BLOCKED") || !EmptyOrMissing(o, FFindings)))
            && (FFindings !in o ==> EmptyOrMissing(o, FFindings))
            && (forall key :: key in w ==> key in o && w[key] == o[key])
  {
    hide Blank;
    EmptyExactly(o, FFindings);
  }

  /** Which keys are left, by the verdict the document names. */
  lemma KeysLeft(o: Fields)
    requires COMMON <= WithoutForeign(o).Keys
    ensures var w, known := WithoutForeign(o).Keys, o.Keys <= COMMON + VARIANT;
            && FVerdict in o
            && (IsApproval(o[FVerdict]) ==> (w == COMMON <==> known && EmptyOrMissing(o, FFindings)))
            && (o[FVerdict] == Str("PLAN_GAP") ==>
                  (w == COMMON + {FOutcomeDelivered, FAffectedOutcome} <==>
                   known && EmptyOrMissing(o, FFindings) && FOutcomeDelivered in o && FAffectedOutcome in o))
            && (o[FVerdict] == Str("BLOCKED") ==>
                  (w == COMMON + {FFindings, FViolations, FResolution} <==>
                   known && FFindings in o && FViolations in o && FResolution in o))
  {
    hide WithoutForeign, EmptyOrMissing;
    LeftOver(o);
    VerdictNames();
    assert FVerdict in COMMON;
  }

  lemma OutcomeExactly(o: Fields, v: ProviderVerdict)
    requires COMMON <= WithoutForeign(o).Keys
    requires !(IsApproval(o[FVerdict]) && Has(o, FOutcomeDelivered, Bool(false)))
    ensures ParseOutcome(WithoutForeign(o)) == Some(v.outcome) <==> o.Keys <= COMMON + VARIANT && HasOutcome(o, v) && ValidOutcome(v.outcome)
  {
    hide WithoutForeign, ParseFinding, PrintFinding, ValidFinding, Blank, EmptyOrMissing;
    var w := WithoutForeign(o);
    LeftOver(o);
    KeysLeft(o);
    VerdictNames();
    assert FVerdict in COMMON;
    if v.outcome.Blocked? && FFindings in w && w[FFindings].Arr? {
      FindingsExactly(w[FFindings].items, v.outcome.findings);
    }
  }

  predicate ValidOutcome(outcome: Outcome<Finding>) {
    match outcome
    case PlanGap(_, affected) => !Blank(affected)
    case Blocked(findings, violations, resolution) =>
      && (forall i :: 0 <= i < |findings| ==> ValidFinding(findings[i]))
      && !Blank(violations) && !Blank(resolution)
    case _ => true
  }

  /** Exactly when a document is accepted, and as which verdict: the verdict is valid, the
      fields of its kind are there and say it, the document has no field that no verdict
      knows, and the fields of other verdicts contradict nothing. */
  lemma AcceptedExactly(d: Doc, v: ProviderVerdict)
    ensures Validate(d) == Some(v) <==>
              && d.Obj?
              && ValidVerdict(v)
              && d.fields.Keys <= COMMON + VARIANT
              && Has(d.fields, FVersion, Str("v2"))
              && HasReachability(d.fields, v)
              && HasNotes(d.fields, v)
              && HasOutcome(d.fields, v)
  {
    hide WithoutForeign, ParseOutcome, ParseReachability, ParseDriftNote, PrintDriftNote, Reads, ValidDriftNote, ValidFinding,
         ValidReachability, HasOutcome, Reachable;
    if Validate(d) == Some(v) {
      ValidatedIsValid(d);
    }
    ValidParts(v);
    if d.Obj? {
      var o := d.fields;
      LeftOver(o);
      NamedVerdict(o, v);
      if COMMON <= o.Keys {
        assert COMMON <= WithoutForeign(o).Keys;
        assert FVerdict in COMMON && FVersion in COMMON && FReachability in COMMON && FDriftNotes in COMMON;
        if !(IsApproval(o[FVerdict]) && Has(o, FOutcomeDelivered, Bool(false))) {
          OutcomeExactly(o, v);
          if o[FReachability].Arr? && o[FDriftNotes].Arr? {
            ReachabilitiesExactly(o[FReachability].items, v.reachability);
            DriftNotesExactly(o[FDriftNotes].items, v.driftNotes);
          }
        }
      } else {
        assert !(COMMON <= WithoutForeign(o).Keys);
      }
    }
  }

  lemma ValidParts(v: ProviderVerdict)
    ensures ValidVerdict(v) ==> ValidOutcome(v.outcome) && (v.outcome.Blocked? || Reachable(v.reachability))
  {
  }

  lemma NamedVerdict(o: Fields, v: ProviderVerdict)
    ensures HasOutcome(o, v) ==>
              && FVerdict in o
              && (o[FVerdict] == Str("BLOCKED") <==> v.outcome.Blocked?)
              && !(IsApproval(o[FVerdict]) && Has(o, FOutcomeDelivered, Bool(false)))
  {
    VerdictNames();
  }
}
