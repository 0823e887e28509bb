/** The self-heal of acceptance RED evidence: it runs the recorded command again and replaces
    the root marker by what the run showed, keeping the exception an operator recorded. */
module RedSelfHeal {
  import opened Json

  datatype Field =
    | FCommand | FCwd | FTargetSpecs | FOutcome | FDispositions
    | FExecuted | FPassed | FFailed | FSkipped | FErrors
    | FException | FKind | FReason | FAttribution
    | FFailingTests | FName | FRanAt | FIntentRationale | Other(name: string)

  type Doc = Json<Field>
  type Fields = map<Field, Doc>

  /** A file: absent, a text that is no JSON, or a document. */
  datatype File = NoFile | NotJson | Document(value: Doc)

  /** Parts of the surroundings that stay abstract: whether a timestamp parses, whether a list
      of dispositions is acceptable, and whether a directory lies in the worktree and exists. */
  datatype Platform = Platform(isDate: string -> bool, dispositionsOk: Doc -> bool, cwdOk: string -> bool)

  // ---------- evidence ----------

  datatype Evidence = Ok | BadShape | BadOutcome

  predicate NonBlankField(o: Fields, key: Field) {
    key in o && o[key].Str? && !Blank(o[key].s)
  }

  predicate IsRecordedException(v: Doc) {
    && v.Obj?
    && FKind in v.fields && (v.fields[FKind] == Str("remediation") || v.fields[FKind] == Str("prior-child-green"))
    && NonBlankField(v.fields, FReason)
    && NonBlankField(v.fields, FAttribution)
  }

  predicate IsFailingTest(v: Doc) {
    v.Obj? && NonBlankField(v.fields, FName) && NonBlankField(v.fields, FReason)
  }

  predicate HasNumber(o: Fields, key: Field) {
    key in o && o[key].Num?
  }

  predicate HasCounters(o: Fields) {
    HasNumber(o, FFailed) && HasNumber(o, FPassed) && HasNumber(o, FSkipped) && HasNumber(o, FErrors) && HasNumber(o, FExecuted)
  }

  predicate FailingTestsOk(o: Fields, excused: bool) {
    if FFailingTests in o && o[FFailingTests].Arr? then
      && (excused || o[FFailingTests].items != [])
      && forall t :: t in o[FFailingTests].items ==> IsFailingTest(t)
    else excused
  }

  function ValidateDispositions(o: Fields, platform: Platform): Evidence {
    if o.Keys == {FOutcome, FDispositions} && platform.dispositionsOk(o[FDispositions]) then Ok else BadShape
  }

  /** Whether a marker establishes RED: the specs ran, none was skipped or errored, and at
      least one failed or a recorded exception excuses it. */
  function Validate(v: Doc, platform: Platform): Evidence {
    if !v.Obj? then BadShape
    else
      var o := v.fields;
      if FOutcome in o && o[FOutcome] == Str("disposition-only") then ValidateDispositions(o, platform)
      else if FOutcome !in o || o[FOutcome] != Str("specs-generated") || FDispositions in o || !HasCounters(o) then BadShape
      else if o[FErrors].n > 0.0 || o[FSkipped].n > 0.0 || o[FExecuted].n < 1.0 then BadOutcome
      else
        var excused := FException in o && IsRecordedException(o[FException]);
        if FException in o && !excused then BadShape
        else if o[FFailed].n < 1.0 && !excused then BadOutcome
        else if !NonBlankField(o, FCommand) then BadShape
        else if FTargetSpecs !in o || !o[FTargetSpecs].Arr? || o[FTargetSpecs].items == [] then BadShape
        else if !FailingTestsOk(o, excused) then BadShape
        else if FRanAt !in o || !o[FRanAt].Str? || !platform.isDate(o[FRanAt].s) then BadShape
        else if !NonBlankField(o, FIntentRationale) then BadShape
        else Ok
  }

  // ---------- the run contract ----------

  datatype Contract = Contract(command: string, cwd: string, targetSpecs: seq<string>)

  function ParseSpec(v: Doc): Option<string> {
    if v.Str? then Some(v.s) else None
  }

  function PrintSpec(s: string): Doc {
    Str(s)
  }

  function ParseContract(v: Doc): Option<Contract> {
    if !v.Obj? || !(FCommand in v.fields && v.fields[FCommand].Str? && v.fields[FCommand].s != "")
       || !(FCwd in v.fields && v.fields[FCwd].Str? && v.fields[FCwd].s != "")
       || !(FTargetSpecs in v.fields && v.fields[FTargetSpecs].Arr? && v.fields[FTargetSpecs].items != []) then None
    else
      var specs := ParseList(ParseSpec, v.fields[FTargetSpecs].items);
      if specs.None? then None else Some(Contract(v.fields[FCommand].s, v.fields[FCwd].s, specs.value))
  }

  /** The contract a run may follow: every target is a committed spec and the directory lies
      in the worktree. */
  function UsableContract(contract: File, specFiles: set<string>, platform: Platform): Option<Contract> {
    if !contract.Document? then None
    else
      var c := ParseContract(contract.value);
      if c.None? then None
      else if exists s :: s in c.value.targetSpecs && s !in specFiles then None
      else if !platform.cwdOk(c.value.cwd) then None
      else c
  }

  // ---------- the marker ----------

  /** The exception recorded in a marker file, if it holds one. */
  function RecordedException(f: File): Option<Doc> {
    if f.Document? && f.value.Obj? && FException in f.value.fields then Some(f.value.fields[FException]) else None
  }

  /** The marker a run leaves: what the command reported, except that the command, its targets
      and the time are the engine's and the exception is the one recorded before. */
  function MarkerOf(report: Doc, contract: Contract, ranAt: string, recorded: Option<Doc>): Doc {
    var observed: Fields := if report.Obj? then report.fields - {FException} else map[];
    var base := map[FOutcome := Str("specs-generated")] + observed +
      map[FCommand := Str(contract.command), FTargetSpecs := Arr(PrintList(PrintSpec, contract.targetSpecs)), FRanAt := Str(ranAt)];
    Obj(if recorded.Some? then base[FException := recorded.value] else base)
  }

  datatype Result =
    | Healed
    | ContractMissing(strayNested: bool)
    | ContractUnusable
    | CommandRejected
    | DetailMissing
    | EvidenceRefused(evidence: Evidence)

  /** What happens outside during one self-heal: the files the command leaves at the marker's
      place, and what it reports, or nothing when it cannot be run at all. */
  datatype Run = Run(report: Option<Doc>, rootAfterCommand: File, ranAt: string)

  predicate EstablishedCounters(v: Doc) {
    && v.Obj? && HasNumber(v.fields, FExecuted) && v.fields[FExecuted].n >= 1.0
    && HasNumber(v.fields, FFailed) && v.fields[FFailed].n >= 1.0
    && FSkipped in v.fields && v.fields[FSkipped] == Num(0.0)
    && FErrors in v.fields && v.fields[FErrors] == Num(0.0)
  }

  predicate HasDetail(v: Doc) {
    && v.Obj? && FFailingTests in v.fields && v.fields[FFailingTests].Arr? && v.fields[FFailingTests].items != []
    && forall t :: t in v.fields[FFailingTests].items ==> IsFailingTest(t)
  }

  /** The evidence files of one worktree. */
  datatype Files = Files(root: File, nested: File)

  /** A stray marker moves to the root only when there is none. */
  function Normalized(f: Files): Files {
    if f.nested == NoFile || f.root != NoFile then f else Files(f.nested, NoFile)
  }

  function Settle(v: Doc, f: Files, platform: Platform): (Result, Files) {
    match Validate(v, platform)
    case Ok => (Healed, f.(root := Document(v)))
    case BadOutcome => (EvidenceRefused(BadOutcome), f.(root := Document(v)))
    case BadShape => (if EstablishedCounters(v) && !HasDetail(v) then DetailMissing else EvidenceRefused(BadShape), f)
  }

  function Heal(f: Files, contract: File, specFiles: set<string>, run: Run, platform: Platform): (Result, Files) {
    if contract == NoFile then (ContractMissing(f.root == NoFile && f.nested != NoFile), f)
    else
      var g := Normalized(f);
      var usable := UsableContract(contract, specFiles, platform);
      if usable.None? then (ContractUnusable, g)
      else
        var after := g.(root := run.rootAfterCommand);
        if run.report.None? then (CommandRejected, after)
        else Settle(MarkerOf(run.report.value, usable.value, run.ranAt, RecordedException(g.root)), after, platform)
  }

  class Worktree {
    var root: File
    var nested: File
    var contract: File

    constructor (root: File, nested: File, contract: File)
      ensures this.root == root && this.nested == nested && this.contract == contract
    {
      this.root, this.nested, this.contract := root, nested, contract;
    }

    method NormalizeNestedMarker()
      modifies this`root, this`nested
      ensures Files(root, nested) == Normalized(old(Files(root, nested)))
    {
      if nested == NoFile {
        return;
      }
      if root != NoFile {
        return;
      }
      root := nested;
      nested := NoFile;
    }

    /** One self-heal, step by step. */
    method SelfHeal(specFiles: set<string>, run: Run, platform: Platform) returns (result: Result)
      modifies this`root, this`nested
      ensures (result, Files(root, nested)) == Heal(old(Files(root, nested)), contract, specFiles, run, platform)
    {
      if contract == NoFile {
        return ContractMissing(root == NoFile && nested != NoFile);
      }
      NormalizeNestedMarker();
      if !contract.Document? {
        return ContractUnusable;
      }
      var parsed := ParseContract(contract.value);
      if parsed.None? {
        return ContractUnusable;
      }
      var c := parsed.value;
      if exists s :: s in c.targetSpecs && s !in specFiles {
        return ContractUnusable;
      }
      if !platform.cwdOk(c.cwd) {
        return ContractUnusable;
      }
      var recorded := RecordedException(root);
      root := run.rootAfterCommand;
      if run.report.None? {
        return CommandRejected;
      }
      var marker := MarkerOf(run.report.value, c, run.ranAt, recorded);
      var validated := Validate(marker, platform);
      if validated != Ok {
        if validated == BadOutcome {
          root := Document(marker);
          return EvidenceRefused(BadOutcome);
        }
        if EstablishedCounters(marker) && !HasDetail(marker) {
          return DetailMissing;
        }
        return EvidenceRefused(validated);
      }
      root := Document(marker);
      return Healed;
    }
  }

  // ---------- integrity ----------

  /** The engine's own fields always win over the report. */
  lemma MarkerFields(report: Doc, c: Contract, ranAt: string, recorded: Option<Doc>)
    ensures var m := MarkerOf(report, c, ranAt, recorded);
            && m.Obj?
            && FCommand in m.fields && m.fields[FCommand] == Str(c.command)
            && FTargetSpecs in m.fields && m.fields[FTargetSpecs] == Arr(PrintList(PrintSpec, c.targetSpecs))
            && FRanAt in m.fields && m.fields[FRanAt] == Str(ranAt)
            && RecordedException(Document(m)) == recorded
  {
  }

  /** Whether a self-heal with this result has written the marker itself. */
  predicate WritesMarker(r: Result) {
    r.Healed? || r == EvidenceRefused(BadOutcome)
  }

  /** When a self-heal changes the root marker by itself: exactly when a usable contract's
      command reports complete evidence, whether or not it establishes RED, and then to the
      marker of that report.  Otherwise the marker is what was there, what was moved there
      from the nested place, or what the command left. */
  lemma RootWrittenExactly(f: Files, contract: File, specFiles: set<string>, run: Run, platform: Platform)
    ensures var (r, g) := Heal(f, contract, specFiles, run, platform);
            var moved, c := Normalized(f), UsableContract(contract, specFiles, platform);
            if contract == NoFile then g == f && !WritesMarker(r)
            else if c.None? then g == moved && !WritesMarker(r)
            else
              && g.nested == moved.nested
              && (WritesMarker(r) <==>
                    && run.report.Some?
                    && Validate(MarkerOf(run.report.value, c.value, run.ranAt, RecordedException(moved.root)), platform) != BadShape)
              && g.root == if WritesMarker(r) then Document(MarkerOf(run.report.value, c.value, run.ranAt, RecordedException(moved.root)))
                           else run.rootAfterCommand
  {
    hide MarkerOf, ParseContract, EstablishedCounters, HasDetail, Validate;
  }

  predicate ReadableRoot(f: Files) {
    f.root.Document? && f.root.value.Obj?
  }

  /** The marker of a readable root, with the same exception or without one. */
  predicate Carries(f: File, recorded: Option<Doc>) {
    f.Document? && f.value.Obj? && RecordedException(f) == recorded
  }

  /** A self-heal keeps the recorded exception, present or absent, exactly when it runs no
      command, writes the marker itself, or finds that the file its command left carries the
      same exception.  What the command reports never matters. */
  lemma ExceptionKept(f: Files, contract: File, specFiles: set<string>, run: Run, platform: Platform)
    requires ReadableRoot(f)
    ensures var (r, g) := Heal(f, contract, specFiles, run, platform);
            Carries(g.root, RecordedException(f.root)) <==>
              || r.ContractMissing? || r.ContractUnusable? || WritesMarker(r)
              || Carries(run.rootAfterCommand, RecordedException(f.root))
  {
    hide MarkerOf, Validate, ParseContract, EstablishedCounters, HasDetail;
    var c := UsableContract(contract, specFiles, platform);
    if contract != NoFile && c.Some? && run.report.Some? {
      MarkerFields(run.report.value, c.value, run.ranAt, RecordedException(f.root));
    }
  }

  /** A self-heal whose command reports something and leaves a file at the marker's place, or
      leaves that place alone. */
  datatype Attempt = Attempt(contract: File, specFiles: set<string>, report: Option<Doc>, ranAt: string, left: Option<File>)

  function HealOne(f: Files, a: Attempt, platform: Platform): (Result, Files) {
    Heal(f, a.contract, a.specFiles, Run(a.report, if a.left.Some? then a.left.value else f.root, a.ranAt), platform)
  }

  /** The files after a sequence of self-heals. */
  function HealAll(f: Files, attempts: seq<Attempt>, platform: Platform): Files {
    if attempts == [] then f
    else HealOne(HealAll(f, attempts[..|attempts| - 1], platform), attempts[|attempts| - 1], platform).1
  }

  predicate CarriesAfter(f: Files, attempts: seq<Attempt>, n: int, platform: Platform) {
    0 <= n <= |attempts| ==> Carries(HealAll(f, attempts[..n], platform).root, RecordedException(f.root))
  }

  /** Attempt `i` runs no command, writes the marker, leaves its place alone, or leaves a file
      with the exception there. */
  predicate SparesException(f: Files, attempts: seq<Attempt>, i: int, platform: Platform) {
    0 <= i < |attempts| ==>
      var a, r := attempts[i], HealOne(HealAll(f, attempts[..i], platform), attempts[i], platform).0;
      || r.ContractMissing? || r.ContractUnusable? || WritesMarker(r)
      || a.left.None? || Carries(a.left.value, RecordedException(f.root))
  }

  lemma AttemptSpares(f: Files, attempts: seq<Attempt>, i: nat, platform: Platform)
    requires ReadableRoot(f) && i < |attempts| && CarriesAfter(f, attempts, i, platform)
    ensures CarriesAfter(f, attempts, i + 1, platform) <==> SparesException(f, attempts, i, platform)
  {
    hide Heal, RecordedException;
    var g, a := HealAll(f, attempts[..i], platform), attempts[i];
    assert attempts[..i + 1][..i] == attempts[..i];
    ExceptionKept(g, a.contract, a.specFiles, Run(a.report, if a.left.Some? then a.left.value else g.root, a.ranAt), platform);
  }

  lemma {:induction false} SparedSoFar(f: Files, attempts: seq<Attempt>, n: nat, platform: Platform)
    requires ReadableRoot(f) && n <= |attempts|
    requires forall i :: 0 <= i < n ==> SparesException(f, attempts, i, platform)
    ensures CarriesAfter(f, attempts, n, platform)
  {
    hide HealOne, RecordedException, SparesException;
    if n == 0 {
      assert attempts[..0] == [];
    } else {
      SparedSoFar(f, attempts, n - 1, platform);
      AttemptSpares(f, attempts, n - 1, platform);
    }
  }

  /** Over any number of self-heals the recorded exception never changes, if and only if every
      attempt spares it.  So it never changes, whatever the commands report, when none of them
      touches the marker. */
  lemma ExceptionNeverChanges(f: Files, attempts: seq<Attempt>, platform: Platform)
    requires ReadableRoot(f)
    ensures (forall n :: CarriesAfter(f, attempts, n, platform)) <==> (forall i :: SparesException(f, attempts, i, platform))
    ensures (forall i :: 0 <= i < |attempts| ==> attempts[i].left.None?) ==>
              Carries(HealAll(f, attempts, platform).root, RecordedException(f.root))
  {
    hide HealOne, RecordedException;
    if forall i :: SparesException(f, attempts, i, platform) {
      forall n | 0 <= n <= |attempts|
        ensures CarriesAfter(f, attempts, n, platform)
      {
        SparedSoFar(f, attempts, n, platform);
      }
    }
    if forall n :: CarriesAfter(f, attempts, n, platform) {
      forall i | 0 <= i < |attempts|
        ensures SparesException(f, attempts, i, platform)
      {
        assert CarriesAfter(f, attempts, i, platform) && CarriesAfter(f, attempts, i + 1, platform);
        AttemptSpares(f, attempts, i, platform);
      }
    }
    assert attempts[..|attempts|] == attempts;
    if forall i :: 0 <= i < |attempts| ==> attempts[i].left.None? {
      assert forall i :: SparesException(f, attempts, i, platform);
      assert CarriesAfter(f, attempts, |attempts|, platform);
    }
  }
}
