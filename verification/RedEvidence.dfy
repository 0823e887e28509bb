/** What acceptance RED evidence must show to be accepted, field by field, and what a healed
    worktree therefore shows. */
module RedEvidence {
  import opened Json
  import opened RedSelfHeal

  // ---------- fields ----------

  /** The object has the field, with this value, or lacks it. */
  predicate Holds(o: Fields, key: Field, v: Option<Doc>) {
    if v.Some? then key in o && o[key] == v.value else key !in o
  }

  /** A text with something in it besides spaces. */
  predicate Says(o: Fields, key: Field) {
    key in o && o[key].Str? && exists i :: 0 <= i < |o[key].s| && !IsSpace(o[key].s[i])
  }

  predicate Counts(o: Fields, key: Field) {
    key in o && o[key].Num?
  }

  /** The exception is one of the two recognized kinds, with a reason and an attribution. */
  predicate Excused(o: Fields) {
    && FException in o && o[FException].Obj?
    && var e := o[FException].fields;
       && FKind in e && e[FKind].Str? && e[FKind].s in {"remediation", "prior-child-green"}
       && Says(e, FReason) && Says(e, FAttribution)
  }

  predicate NamesFailure(t: Doc) {
    t.Obj? && Says(t.fields, FName) && Says(t.fields, FReason)
  }

  /** Every failing test listed has a name and a reason, and, unless the run is excused, there
      is one. */
  predicate ListsFailures(o: Fields) {
    if FFailingTests in o && o[FFailingTests].Arr? then
      && (Excused(o) || |o[FFailingTests].items| > 0)
      && forall k :: 0 <= k < |o[FFailingTests].items| ==> NamesFailure(o[FFailingTests].items[k])
    else Excused(o)
  }

  /** A report of generated specs with its five counters. */
  predicate IsRun(o: Fields) {
    && Holds(o, FOutcome, Some(Str("specs-generated"))) && FDispositions !in o
    && Counts(o, FExecuted) && Counts(o, FPassed) && Counts(o, FFailed) && Counts(o, FSkipped) && Counts(o, FErrors)
  }

  /** Nothing errored, nothing was skipped, something ran, and something failed or an exception
      excuses that nothing did. */
  predicate IsRed(o: Fields)
    requires IsRun(o)
  {
    && o[FErrors].n <= 0.0 && o[FSkipped].n <= 0.0 && o[FExecuted].n >= 1.0
    && (o[FFailed].n >= 1.0 || Excused(o))
  }

  /** Evidence that establishes RED. */
  predicate Establishes(o: Fields, platform: Platform) {
    && IsRun(o) && IsRed(o)
    && (FException in o ==> Excused(o))
    && Says(o, FCommand) && Says(o, FIntentRationale)
    && FTargetSpecs in o && o[FTargetSpecs].Arr? && |o[FTargetSpecs].items| > 0
    && ListsFailures(o)
    && FRanAt in o && o[FRanAt].Str? && platform.isDate(o[FRanAt].s)
  }

  /** A run that is no RED: something errored or was skipped, nothing ran, or nothing failed and
      no exception is recorded. */
  predicate FallsShort(o: Fields) {
    && IsRun(o)
    && (|| o[FErrors].n > 0.0 || o[FSkipped].n > 0.0 || o[FExecuted].n < 1.0
        || (o[FFailed].n < 1.0 && FException !in o))
  }

  predicate OnlyDisposes(o: Fields, platform: Platform) {
    && o.Keys == {FOutcome, FDispositions} && o[FOutcome] == Str("disposition-only")
    && platform.dispositionsOk(o[FDispositions])
  }

  lemma SaysExactly(o: Fields, key: Field)
    ensures NonBlankField(o, key) <==> Says(o, key)
  {
  }

  lemma ExcusedExactly(o: Fields)
    ensures FException in o && IsRecordedException(o[FException]) <==> Excused(o)
  {
    hide Says, NonBlankField;
    if FException in o && o[FException].Obj? {
      SaysExactly(o[FException].fields, FReason);
      SaysExactly(o[FException].fields, FAttribution);
    }
  }

  lemma ListsExactly(o: Fields)
    ensures FailingTestsOk(o, Excused(o)) <==> ListsFailures(o)
  {
    hide Excused, Says, NonBlankField;
    if FFailingTests in o && o[FFailingTests].Arr? {
      var items := o[FFailingTests].items;
      forall t
        ensures IsFailingTest(t) <==> NamesFailure(t)
      {
        if t.Obj? {
          SaysExactly(t.fields, FName);
          SaysExactly(t.fields, FReason);
        }
      }
      assert (forall t :: t in items ==> IsFailingTest(t)) <==> forall k :: 0 <= k < |items| ==> IsFailingTest(items[k]);
    }
  }

  lemma RunExactly(o: Fields)
    ensures IsRun(o) <==> FOutcome in o && o[FOutcome] == Str("specs-generated") && FDispositions !in o && HasCounters(o)
  {
  }

  /** Which documents are accepted, and which show a run that is no RED; every other one is
      malformed. */
  lemma EvidenceExactly(v: Doc, platform: Platform)
    ensures Validate(v, platform) == Ok <==> v.Obj? && (Establishes(v.fields, platform) || OnlyDisposes(v.fields, platform))
    ensures Validate(v, platform) == BadOutcome <==> v.Obj? && FallsShort(v.fields)
  {
    hide Says, NonBlankField, Excused, ListsFailures, FailingTestsOk, IsRecordedException;
    if v.Obj? {
      var o := v.fields;
      RunExactly(o);
      ExcusedExactly(o);
      ListsExactly(o);
      SaysExactly(o, FCommand);
      SaysExactly(o, FIntentRationale);
      assert "disposition-only" != "specs-generated" by {
        assert "disposition-only"[0] != "specs-generated"[0];
      }
    }
  }

  // ---------- the run contract ----------

  predicate NonEmptyText(o: Fields, key: Field, s: string) {
    Holds(o, key, Some(Str(s))) && s != ""
  }

  /** The contract file says exactly this, its targets are committed specs, and its directory
      lies in the worktree. */
  predicate Allows(contract: File, specFiles: set<string>, platform: Platform, c: Contract) {
    && contract.Document? && contract.value.Obj?
    && var o := contract.value.fields;
       && NonEmptyText(o, FCommand, c.command) && NonEmptyText(o, FCwd, c.cwd)
       && Holds(o, FTargetSpecs, Some(Arr(PrintList(PrintSpec, c.targetSpecs))))
       && c.targetSpecs != []
       && (forall k :: 0 <= k < |c.targetSpecs| ==> c.targetSpecs[k] in specFiles)
       && platform.cwdOk(c.cwd)
  }

  lemma SpecsExactly(items: seq<Doc>, specs: seq<string>)
    ensures ParseList(ParseSpec, items) == Some(specs) <==> items == PrintList(PrintSpec, specs)
  {
    ListCodec(ParseSpec, PrintSpec, _ => true, items, specs);
  }

  lemma ContractExactly(contract: File, specFiles: set<string>, platform: Platform)
    ensures forall c :: UsableContract(contract, specFiles, platform) == Some(c) <==> Allows(contract, specFiles, platform, c)
  {
    forall c
      ensures UsableContract(contract, specFiles, platform) == Some(c) <==> Allows(contract, specFiles, platform, c)
    {
      if contract.Document? && contract.value.Obj? && FTargetSpecs in contract.value.fields && contract.value.fields[FTargetSpecs].Arr? {
        SpecsExactly(contract.value.fields[FTargetSpecs].items, c.targetSpecs);
      }
    }
  }

  // ---------- the marker ----------

  /** The value of a field of the marker: the engine's own for the command, its targets and the
      time; the recorded one for the exception; and otherwise the one reported, specs having
      been generated when nothing is said about that. */
  function MarkerField(key: Field, report: Doc, c: Contract, ranAt: string, recorded: Option<Doc>): Option<Doc> {
    if key == FException then recorded
    else if key == FCommand then Some(Str(c.command))
    else if key == FTargetSpecs then Some(Arr(PrintList(PrintSpec, c.targetSpecs)))
    else if key == FRanAt then Some(Str(ranAt))
    else if report.Obj? && key in report.fields then Some(report.fields[key])
    else if key == FOutcome then Some(Str("specs-generated"))
    else None
  }

  lemma MarkerExactly(report: Doc, c: Contract, ranAt: string, recorded: Option<Doc>)
    ensures var m := MarkerOf(report, c, ranAt, recorded);
            m.Obj? && forall key :: Holds(m.fields, key, MarkerField(key, report, c, ranAt, recorded))
  {
  }

  // ---------- the result of a self-heal ----------

  /** Executed and failed at least one, skipped and errored none, yet without the list of
      failing tests. */
  predicate LacksDetail(o: Fields) {
    && Counts(o, FExecuted) && o[FExecuted].n >= 1.0 && Counts(o, FFailed) && o[FFailed].n >= 1.0
    && Holds(o, FSkipped, Some(Num(0.0))) && Holds(o, FErrors, Some(Num(0.0)))
    && !(&& FFailingTests in o && o[FFailingTests].Arr? && |o[FFailingTests].items| > 0
         && forall k :: 0 <= k < |o[FFailingTests].items| ==> NamesFailure(o[FFailingTests].items[k]))
  }

  lemma DetailExactly(v: Doc)
    requires v.Obj?
    ensures EstablishedCounters(v) && !HasDetail(v) <==> LacksDetail(v.fields)
  {
    hide Says, NonBlankField;
    var o := v.fields;
    forall t
      ensures IsFailingTest(t) <==> NamesFailure(t)
    {
      if t.Obj? {
        SaysExactly(t.fields, FName);
        SaysExactly(t.fields, FReason);
      }
    }
    if FFailingTests in o && o[FFailingTests].Arr? {
      var items := o[FFailingTests].items;
      assert (forall t :: t in items ==> IsFailingTest(t)) <==> forall k :: 0 <= k < |items| ==> IsFailingTest(items[k]);
    }
  }

  /** Every result of a self-heal and the root it leaves, from the contract, what the command
      reports, and the fields of the marker these make. */
  lemma HealExactly(f: Files, contract: File, specFiles: set<string>, run: Run, platform: Platform, c: Contract)
    requires contract != NoFile && Allows(contract, specFiles, platform, c)
    ensures var (r, g) := Heal(f, contract, specFiles, run, platform);
            && (run.report.None? ==> r == CommandRejected && g.root == run.rootAfterCommand)
            && (run.report.Some? ==>
                  var m := MarkerOf(run.report.value, c, run.ranAt, RecordedException(Normalized(f).root));
                  && (r == Healed <==> Establishes(m.fields, platform))
                  && (r == EvidenceRefused(BadOutcome) <==> FallsShort(m.fields))
                  && (r == DetailMissing <==> !Establishes(m.fields, platform) && !FallsShort(m.fields) && LacksDetail(m.fields))
                  && r in {Healed, EvidenceRefused(BadOutcome), DetailMissing, EvidenceRefused(BadShape)}
                  && g.root == if r == Healed || r == EvidenceRefused(BadOutcome) then Document(m) else run.rootAfterCommand)
  {
    hide UsableContract, Allows, MarkerOf, Validate, Establishes, FallsShort, EstablishedCounters, HasDetail, LacksDetail;
    ContractExactly(contract, specFiles, platform);
    if run.report.Some? {
      var recorded := RecordedException(Normalized(f).root);
      var m := MarkerOf(run.report.value, c, run.ranAt, recorded);
      MarkerExactly(run.report.value, c, run.ranAt, recorded);
      EvidenceExactly(m, platform);
      DetailExactly(m);
      NoDispositions(m, run.report.value, c, run.ranAt, recorded, platform);
    }
  }

  lemma NoDispositions(m: Doc, report: Doc, c: Contract, ranAt: string, recorded: Option<Doc>, platform: Platform)
    requires m == MarkerOf(report, c, ranAt, recorded) && m.Obj?
    ensures !OnlyDisposes(m.fields, platform)
  {
    hide MarkerOf;
    MarkerExactly(report, c, ranAt, recorded);
    assert Holds(m.fields, FCommand, MarkerField(FCommand, report, c, ranAt, recorded));
  }

  /** Without a usable contract nothing is run. */
  lemma NothingRun(f: Files, contract: File, specFiles: set<string>, run: Run, platform: Platform)
    ensures var (r, g) := Heal(f, contract, specFiles, run, platform);
            && (contract == NoFile <==> r.ContractMissing?)
            && (r.ContractMissing? ==> r.strayNested == (f.root == NoFile && f.nested != NoFile) && g == f)
            && (r == ContractUnusable <==> contract != NoFile && forall c :: !Allows(contract, specFiles, platform, c))
            && (r == ContractUnusable ==> g == if f.nested != NoFile && f.root == NoFile then Files(f.nested, NoFile) else f)
  {
    hide UsableContract, Allows, MarkerOf, Validate, EstablishedCounters, HasDetail;
    ContractExactly(contract, specFiles, platform);
  }

  /** A healed root shows a run of the contract's command on its committed targets in which
      nothing was skipped, nothing errored and something ran, and something failed, unless the
      exception recorded before, which it still carries, excuses that nothing did. */
  lemma HealedIsSound(f: Files, contract: File, specFiles: set<string>, run: Run, platform: Platform)
    requires Heal(f, contract, specFiles, run, platform).0 == Healed
    ensures var root := Heal(f, contract, specFiles, run, platform).1.root;
            && root.Document? && root.value.Obj?
            && var o := root.value.fields;
               && IsRun(o) && IsRed(o) && ListsFailures(o) && Establishes(o, platform)
               && Holds(o, FException, RecordedException(Normalized(f).root))
               && (exists c :: Allows(contract, specFiles, platform, c)
                     && Holds(o, FCommand, Some(Str(c.command)))
                     && Holds(o, FTargetSpecs, Some(Arr(PrintList(PrintSpec, c.targetSpecs)))))
               && Holds(o, FRanAt, Some(Str(run.ranAt)))
  {
    hide Heal, Allows, UsableContract, IsRun, IsRed, ListsFailures, Excused, Says;
    NothingRun(f, contract, specFiles, run, platform);
    var c :| Allows(contract, specFiles, platform, c);
    HealExactly(f, contract, specFiles, run, platform, c);
    var recorded := RecordedException(Normalized(f).root);
    MarkerExactly(run.report.value, c, run.ranAt, recorded);
    var o := MarkerOf(run.report.value, c, run.ranAt, recorded).fields;
    assert Holds(o, FCommand, MarkerField(FCommand, run.report.value, c, run.ranAt, recorded));
    assert Holds(o, FTargetSpecs, MarkerField(FTargetSpecs, run.report.value, c, run.ranAt, recorded));
    assert Holds(o, FRanAt, MarkerField(FRanAt, run.report.value, c, run.ranAt, recorded));
    assert Holds(o, FException, MarkerField(FException, run.report.value, c, run.ranAt, recorded));
  }
}
