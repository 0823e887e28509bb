/** The store as an object: it reads, checks and atomically replaces one file on a disk
    while it holds that file's lease. */
module AcceptedWideningStore {
  import opened Json
  import opened DecisionLog
  import opened DecisionCodec
  import opened DecisionStore
  import opened DecisionRuns

  /** The part of the file system the store touches, shared by every store of one project. */
  class Disk {
    var file: Option<FileText>
    var temporaries: map<string, FileText>
    var leased: bool

    constructor ()
      ensures file.None? && temporaries == map[] && !leased
    {
      file, temporaries, leased := None, map[], false;
    }
  }

  /** `ParseState` as the store runs it: the decisions are collected one by one, then their
      ids, their numbering and their relationships are checked in separate passes. */
  method ParseDecisionState(v: Doc) returns (r: StateRead)
    ensures r == ParseState(v)
  {
    if !v.Obj? {
      return ReadMalformed;
    }
    if FVersion !in v.fields || v.fields[FVersion] != Num(2.0) {
      return ReadUnsupported;
    }
    if !HasStateShape(v) || |v.fields[FDecisions].items| > MAX_DECISIONS {
      return ReadMalformed;
    }
    var feature := ParseFeature(v.fields[FFeature]);
    var decisions := ParseList(ParseDecision, v.fields[FDecisions].items);
    if feature.None? || decisions.None? {
      return ReadMalformed;
    }
    var linked := IsLinked(decisions.value);
    r := if linked then ReadValid(State(feature.value, decisions.value)) else ReadMalformed;
  }

  method IsLinked(ds: seq<Decision>) returns (ok: bool)
    ensures ok <==> Linked(ds)
  {
    var ids: set<string> := {};
    for i := 0 to |ds|
      invariant forall id :: id in ids <==> exists k :: 0 <= k < i && ds[k].id == id
      invariant UniqueIds(ds[..i])
    {
      if ds[i].id in ids {
        var k :| 0 <= k < i && ds[k].id == ds[i].id;
        assert !UniqueIds(ds);
        return false;
      }
      ids := ids + {ds[i].id};
    }
    assert ds[..|ds|] == ds;
    for i := 0 to |ds|
      invariant forall k :: 0 <= k < i ==> ds[k].revision == k + 1
    {
      if ds[i].revision != i + 1 {
        return false;
      }
    }
    ok := HasValidRelationships(ds);
  }

  class AcceptedWideningDecisionStore {
    const disk: Disk
    const feature: Feature
    const platform: Platform

    constructor (disk: Disk, feature: Feature, platform: Platform)
      ensures this.disk == disk && this.feature == feature && this.platform == platform
    {
      this.disk, this.feature, this.platform := disk, feature, platform;
    }

    /** Takes the lease.  Nothing else is assumed of it than mutual exclusion. */
    method Acquire(outcome: LeaseOutcome) returns (failure: Option<Failure>)
      requires outcome.Granted? ==> !disk.leased
      modifies disk`leased
      ensures failure == if outcome.Granted? then None else Some(LeaseFailure(outcome))
      ensures disk.leased == (old(disk.leased) || outcome.Granted?)
    {
      match outcome
      case Granted => disk.leased := true; failure := None;
      case TimedOut => failure := Some(LockTimeout);
      case Refused => failure := Some(LockFailed);
    }

    method Release()
      requires disk.leased
      modifies disk`leased
      ensures !disk.leased
    {
      disk.leased := false;
    }

    method LoadState(readFails: bool) returns (loaded: Loaded)
      requires disk.leased
      ensures loaded == Load(ReadFile(disk.file, readFails), feature)
    {
      if readFails {
        return NotLoaded(Unreadable);
      }
      if disk.file.None? {
        return Absent;
      }
      if disk.file.value.parsed.None? {
        return NotLoaded(MalformedState);
      }
      var parsed := ParseDecisionState(disk.file.value.parsed.value);
      match parsed
      case ReadMalformed => return NotLoaded(MalformedState);
      case ReadUnsupported => return NotLoaded(UnsupportedVersion);
      case ReadValid(s) => return if s.feature == feature then Present(s) else NotLoaded(ForeignFeature);
    }

    /** Writes a temporary file and renames it over the stored one.  When a step fails the
        stored file is untouched, and no temporary file stays unless its removal fails too. */
    method AtomicReplace(next: State, env: Environment) returns (ok: bool)
      requires disk.leased && env.temporary !in disk.temporaries
      modifies disk`file, disk`temporaries
      ensures ok == env.Replaces()
      ensures disk.file == if ok then Some(Rendered(platform, next)) else old(disk.file)
      ensures ok || !env.removeFails ==> disk.temporaries == old(disk.temporaries)
      ensures disk.temporaries - {env.temporary} == old(disk.temporaries)
    {
      var text := Rendered(platform, next);
      ok := false;
      if !env.mkdirFails {
        disk.temporaries := disk.temporaries[env.temporary := if env.writeFails then FileText("", None) else text];
        if !env.writeFails && !env.renameFails {
          disk.file := Some(disk.temporaries[env.temporary]);
          disk.temporaries := disk.temporaries - {env.temporary};
          ok := true;
        }
      }
      if !ok && !env.removeFails {
        disk.temporaries := disk.temporaries - {env.temporary};
      }
    }

    method Append(input: Doc, env: Environment) returns (r: AppendResult)
      requires env.lease.Granted? ==> !disk.leased
      requires env.temporary !in disk.temporaries
      modifies disk
      ensures (r, disk.file) == AppendEffect(old(disk.file), feature, input, env, platform)
      ensures disk.leased == old(disk.leased)
      ensures r.Appended? || !env.removeFails ==> disk.temporaries == old(disk.temporaries)
    {
      hide ParseInput, Load, Rendered, ValidState;
      AppendFromLog(disk.file, feature, input, env, platform);
      var parsed := ParseInput(input);
      if parsed.None? {
        return AppendFailed(InvalidDecision);
      }
      var failure := Acquire(env.lease);
      if failure.Some? {
        return AppendFailed(failure.value);
      }
      var loaded := LoadState(env.readFails);
      if loaded.NotLoaded? {
        r := AppendFailed(loaded.reason);
      } else {
        r := AppendToLog(LogOf(loaded, feature), parsed.value, env);
      }
      Release();
    }

    /** The part of an append that runs once the log is known. */
    method AppendToLog(s: State, e: Entry, env: Environment) returns (r: AppendResult)
      requires disk.leased && env.temporary !in disk.temporaries
      modifies disk`file, disk`temporaries
      ensures (r, disk.file) == Settle(PlanOnLog(s, e, env.newId), old(disk.file), env, platform)
      ensures r.Appended? || !env.removeFails ==> disk.temporaries == old(disk.temporaries)
    {
      match Screen(s.decisions, e)
      case Replay(i) => return Appended(s.decisions[i]);
      case Inadmissible => return AppendFailed(InvalidDecision);
      case Admissible =>
        if env.newId.None? {
          return AppendFailed(LeaseOperationFailed);
        }
        var id := env.newId.value;
        if !BoundedReference(id) || exists d :: d in s.decisions && d.id == id {
          return AppendFailed(InvalidDecision);
        }
        var decision := NewDecision(s.decisions, e, id);
        var next := State(s.feature, s.decisions + [decision]);
        var checked := ParseDecisionState(PrintState(next));
        if !checked.ReadValid? {
          return AppendFailed(InvalidDecision);
        }
        var ok := AtomicReplace(next, env);
        r := if ok then Appended(decision) else AppendFailed(AtomicReplaceFailed);
    }

    method MigrateLegacy(sourceId: string, decisions: seq<Doc>, env: Environment) returns (r: MigrationResult)
      requires env.lease.Granted? ==> !disk.leased
      requires env.temporary !in disk.temporaries
      modifies disk
      ensures (r, disk.file) == MigrationEffect(old(disk.file), feature, sourceId, decisions, env, platform)
      ensures disk.leased == old(disk.leased)
      ensures !r.MigrationFailed? || !env.removeFails ==> disk.temporaries == old(disk.temporaries)
    {
      hide ParseState, Rendered;
      var next := ParseDecisionState(ProposedLog(feature, decisions));
      if !next.ReadValid? {
        return MigrationFailed(MalformedState);
      }
      var failure := Acquire(env.lease);
      if failure.Some? {
        return MigrationFailed(failure.value);
      }
      r := MigrateUnderLease(next.state, sourceId, env);
      Release();
    }

    method MigrateUnderLease(next: State, sourceId: string, env: Environment) returns (r: MigrationResult)
      requires disk.leased && env.temporary !in disk.temporaries
      modifies disk`file, disk`temporaries
      ensures (r, disk.file) ==
              Settle(PlanMigration(ReadFile(old(disk.file), env.readFails), next, sourceId, platform), old(disk.file), env, platform)
      ensures !r.MigrationFailed? || !env.removeFails ==> disk.temporaries == old(disk.temporaries)
    {
      hide ParseState, Rendered;
      if env.readFails {
        return MigrationFailed(Unreadable);
      }
      if disk.file.None? {
        return MigrationFailed(LegacyChanged);
      }
      var text := disk.file.value;
      if text.parsed.None? || !text.parsed.value.Obj? {
        return MigrationFailed(MalformedState);
      }
      if IsVersionOne(text.parsed.value) {
        if !IsLegacyDocument(text.parsed.value) {
          return MigrationFailed(MalformedState);
        }
        if platform.documentId(text.raw) != sourceId {
          return MigrationFailed(LegacyChanged);
        }
        var ok := AtomicReplace(next, env);
        return if ok then Migrated else MigrationFailed(AtomicReplaceFailed);
      }
      var existing := ParseDecisionState(text.parsed.value);
      match existing
      case ReadUnsupported => return MigrationFailed(UnsupportedVersion);
      case ReadMalformed => return MigrationFailed(MalformedState);
      case ReadValid(s) =>
        if s.feature != next.feature {
          return MigrationFailed(ForeignFeature);
        }
        return if s.decisions == next.decisions then AlreadyMigrated else MigrationFailed(LegacyChanged);
    }
  }
}
