/** The manual-test gate and its fail-evidence marker: a FAIL observed at a commit may not be
    washed away by rewriting the results. */
module ManualTestGate {
  import opened Json

  // ---------- the results file ----------

  /** Whether `c` uppercases to the capital letter `upper`, one of F, A, I and L. */
  predicate UppercasesTo(c: char, upper: char) {
    || c == upper
    || ('A' <= upper <= 'Z' && c == (upper as int + 32) as char)
    || (upper == 'I' && c == '\U{0131}')
  }

  predicate IsFailCell(cell: string) {
    var t := Trim(cell);
    && |t| == 4
    && UppercasesTo(t[0], 'F') && UppercasesTo(t[1], 'A') && UppercasesTo(t[2], 'I') && UppercasesTo(t[3], 'L')
  }

  predicate IsFailRow(line: string) {
    exists cell :: cell in Split(line, '|') && IsFailCell(cell)
  }

  predicate IsSkipLine(line: string) {
    Trim(line) == "<!-- manual-test:skipped -->"
  }

  predicate IsSkipAttempt(region: string) {
    exists line :: line in Split(region, '\n') && IsSkipLine(line)
  }

  predicate IsWordCharacter(c: char) {
    'a' <= c <= 'z' || 'A' <= c <= 'Z' || IsDigit(c) || c == '_'
  }

  predicate MatchesIgnoringCase(text: string, from: nat, word: string)
    requires forall k :: 0 <= k < |word| ==> 'a' <= word[k] <= 'z'
  {
    && from + |word| <= |text|
    && forall k :: 0 <= k < |word| ==> text[from + k] == word[k] || text[from + k] == (word[k] as int - 32) as char
  }

  /** Whether an attempt heading, `## Attempt` and a number, starts at `i`. */
  predicate AttemptHeadingAt(text: string, i: nat)
    requires i <= |text|
  {
    && (i == 0 || IsLineEnd(text[i - 1]))
    && i + 2 <= |text| && text[i] == '#' && text[i + 1] == '#'
    && var word := RunEnd(text, i + 2, IsSpace);
       && word > i + 2 && MatchesIgnoringCase(text, word, "attempt")
       && var gap := RunEnd(text, word + 7, IsSpace);
          && gap > word + 7
          && var digits := RunEnd(text, gap, IsDigit);
             digits > gap && (digits == |text| || !IsWordCharacter(text[digits]))
  }

  function LastHeading(text: string, end: nat): (i: int)
    requires end <= |text| + 1
    ensures -1 <= i < end
    ensures i >= 0 ==> AttemptHeadingAt(text, i)
    ensures forall k :: i < k < end ==> k >= 0 ==> !AttemptHeadingAt(text, k)
  {
    if end == 0 then -1
    else if AttemptHeadingAt(text, end - 1) then end - 1
    else LastHeading(text, end - 1)
  }

  /** The part of the results that carries the current verdict: from the last attempt
      heading on, or all of them. */
  function LatestAttemptRegion(text: string): string {
    var i := LastHeading(text, |text| + 1);
    if i < 0 then text else text[i..]
  }

  function FilterFails(lines: seq<string>): seq<string> {
    if lines == [] then []
    else FilterFails(lines[..|lines| - 1]) + (if IsFailRow(lines[|lines| - 1]) then [lines[|lines| - 1]] else [])
  }

  function FailRows(region: string): seq<string> {
    FilterFails(Split(region, '\n'))
  }

  // ---------- the marker file ----------

  datatype Field = FObservedAt | FHeadSha | FFailRows | FCodeStamp | FLength | Other(name: string)

  /** The marker file: absent, or a text that is JSON or is not. */
  datatype Marker = NoMarker | Text(parsed: Option<Json<Field>>)

  function FieldOf(m: Marker, f: Field): Option<Json<Field>> {
    if m.Text? && m.parsed.Some? && m.parsed.value.Obj? && f in m.parsed.value.fields
    then Some(m.parsed.value.fields[f]) else None
  }

  function Recorded(now: real, head: string, failRows: seq<string>): Marker {
    var rows := if |failRows| > 20 then failRows[..20] else failRows;
    Text(Some(Obj(map[FObservedAt := Num(now), FHeadSha := Str(head),
                      FFailRows := Arr(seq(|rows|, i requires 0 <= i < |rows| => Str(rows[i])))])))
  }

  function Stamped(m: Marker, head: string): Marker {
    var fields := if m.Text? && m.parsed.Some? && m.parsed.value.Obj? then m.parsed.value.fields else map[];
    Text(Some(Obj(fields[FCodeStamp := Str(head)])))
  }

  predicate HasNoRows(rows: Option<Json<Field>>) {
    match rows
    case None => true
    case Some(Arr(items)) => items == []
    case Some(Str(s)) => s == ""
    case Some(Obj(fields)) => FLength in fields && fields[FLength] == Num(0.0)
    case _ => false
  }

  /** A marker that records nothing but a clean verdict. */
  predicate IsCleanPass(m: Marker) {
    && FieldOf(m, FCodeStamp).Some? && !FieldOf(m, FCodeStamp).value.Null?
    && FieldOf(m, FHeadSha).None?
    && HasNoRows(FieldOf(m, FFailRows))
  }

  // ---------- one evaluation ----------

  datatype RunIdentity = Match | Stale | Unstamped

  /** What the world answers during one evaluation.  Both freshness questions ask whether the
      results file was written in this session.  The marker is read at up to four places, and
      each read may fail: for a preserved verdict, for evidence of a FAIL, for the closing
      guard, and for the code stamp. */
  datatype Context = Context(
    session: Option<real>,
    now: real,
    head: Option<string>,
    results: Option<string>,
    identity: RunIdentity,
    validityEnabled: bool,
    preserves: bool,
    freshAtSkip: bool,
    freshAtEnd: bool,
    preserveProbe: bool,
    verdictReads: bool,
    evidenceReads: bool,
    guardReads: bool,
    stampReads: bool,
    writeSucceeds: bool,
    removeSucceeds: bool)
  {
    predicate HeadKnown() {
      head.Some? && head.value != ""
    }
  }

  datatype Verdict =
    | Done
    | Preserved
    | MissingResults
    | StaleRun
    | StaleResults
    | HasFails
    | Whitewash
  {
    predicate IsDone() {
      Done? || Preserved?
    }
  }

  /** The marker as one read of it finds it. */
  function Seen(m: Marker, readable: bool): Marker {
    if readable then m else NoMarker
  }

  predicate IsFresh(m: Marker, session: Option<real>) {
    session.None? ||
    (FieldOf(m, FObservedAt).Some? && FieldOf(m, FObservedAt).value.Num? && FieldOf(m, FObservedAt).value.n >= session.value)
  }

  predicate HasFreshFailAtHead(m: Marker, head: string, session: Option<real>) {
    FieldOf(m, FHeadSha) == Some(Str(head)) && IsFresh(m, session)
  }

  class Gate {
    var marker: Marker

    constructor ()
      ensures marker == NoMarker
    {
      marker := NoMarker;
    }

    method Write(m: Marker, c: Context)
      modifies this
      ensures marker == if c.writeSucceeds then m else old(marker)
    {
      if c.writeSucceeds {
        marker := m;
      }
    }

    method Remove(c: Context)
      modifies this
      ensures marker == if c.removeSucceeds then NoMarker else old(marker)
    {
      if c.removeSucceeds {
        marker := NoMarker;
      }
    }

    /** The completion check of the manual-test step. */
    method Evaluate(c: Context) returns (v: Verdict)
      modifies this
      ensures (v, marker) == Evaluation(old(marker), c)
    {
      hide LatestAttemptRegion, FailRows, IsSkipAttempt, IsCleanPass, Recorded, HasFreshFailAtHead, CleanEvaluation;
      if c.identity != Stale && c.validityEnabled {
        if IsCleanPass(Seen(marker, c.verdictReads)) && c.preserves {
          return Preserved;
        }
      }
      if c.results.None? {
        return MissingResults;
      }
      var region := LatestAttemptRegion(c.results.value);
      var failRows := FailRows(region);
      if c.identity == Stale {
        if failRows == [] && c.HeadKnown() && HasFreshFailAtHead(Seen(marker, c.evidenceReads), c.head.value, c.session) {
          return Whitewash;
        }
        return StaleRun;
      }
      if failRows == [] && IsSkipAttempt(region) {
        if c.identity != Match && !c.freshAtSkip {
          return StaleResults;
        }
        var laundered := c.HeadKnown() && HasFreshFailAtHead(Seen(marker, c.evidenceReads), c.head.value, c.session);
        if !laundered {
          return Done;
        }
      }
      if failRows != [] {
        if c.HeadKnown() && !c.preserveProbe {
          Write(Recorded(c.now, c.head.value, failRows), c);
        }
        return HasFails;
      }
      if c.identity != Match && !c.freshAtEnd {
        return StaleResults;
      }
      v := CleanUp(c);
    }

    /** The closing guard, and the code stamp of a clean verdict. */
    method CleanUp(c: Context) returns (v: Verdict)
      modifies this
      ensures (v, marker) == CleanEvaluation(old(marker), c)
    {
      hide Stamped, IsFresh, FieldOf;
      if c.HeadKnown() {
        var seen := Seen(marker, c.guardReads);
        var recordedHead := FieldOf(seen, FHeadSha);
        if recordedHead.Some? && recordedHead.value.Str? {
          var freshMarker := IsFresh(seen, c.session);
          if !freshMarker && !c.preserveProbe {
            Remove(c);
          } else if recordedHead.value.s == c.head.value {
            return Whitewash;
          } else if !c.preserveProbe {
            Remove(c);
          }
        }
      }
      if c.HeadKnown() && !c.preserveProbe {
        Write(Stamped(Seen(marker, c.stampReads), c.head.value), c);
      }
      return Done;
    }
  }

  function AfterRemove(m: Marker, c: Context): Marker {
    if c.removeSucceeds then NoMarker else m
  }

  function AfterWrite(m: Marker, written: Marker, c: Context): Marker {
    if c.writeSucceeds then written else m
  }

  /** The closing whitewash guard and the code stamp of a clean verdict. */
  function CleanEvaluation(m: Marker, c: Context): (Verdict, Marker) {
    if !c.HeadKnown() then (Done, m)
    else
      var seen := Seen(m, c.guardReads);
      var recordedHead := FieldOf(seen, FHeadSha);
      var records := recordedHead.Some? && recordedHead.value.Str?;
      var expired := !IsFresh(seen, c.session) && !c.preserveProbe;
      if records && !expired && recordedHead.value.s == c.head.value then (Whitewash, m)
      else
        var kept := if records && !c.preserveProbe then AfterRemove(m, c) else m;
        (Done, if c.preserveProbe then kept else AfterWrite(kept, Stamped(Seen(kept, c.stampReads), c.head.value), c))
  }

  /** The verdict of one evaluation and the marker it leaves. */
  function Evaluation(m: Marker, c: Context): (Verdict, Marker) {
    if c.identity != Stale && c.validityEnabled && c.preserves && IsCleanPass(Seen(m, c.verdictReads)) then (Preserved, m)
    else if c.results.None? then (MissingResults, m)
    else
      var region := LatestAttemptRegion(c.results.value);
      var fails := FailRows(region);
      var evidence := c.HeadKnown() && HasFreshFailAtHead(Seen(m, c.evidenceReads), c.head.value, c.session);
      if c.identity == Stale then (if fails == [] && evidence then Whitewash else StaleRun, m)
      else if fails != [] then
        (HasFails, if c.HeadKnown() && !c.preserveProbe then AfterWrite(m, Recorded(c.now, c.head.value, fails), c) else m)
      else if IsSkipAttempt(region) && c.identity != Match && !c.freshAtSkip then (StaleResults, m)
      else if IsSkipAttempt(region) && !evidence then (Done, m)
      else if c.identity != Match && !c.freshAtEnd then (StaleResults, m)
      else CleanEvaluation(m, c)
  }

  // ---------- the whitewash guard ----------

  /** The marker holds a FAIL observed at `head` in this session. */
  predicate Guarded(m: Marker, head: string, session: Option<real>) {
    head != "" && HasFreshFailAtHead(m, head, session)
  }

  /** An evaluation in the given session at the given head, whose clock has not gone back
      behind the session's start.  Everything else about it is arbitrary: the results, the run
      identity, the code validity, the file times, and which reads and writes fail. */
  predicate SameSessionAndHead(c: Context, head: string, session: Option<real>) {
    && c.session == session
    && c.head == Some(head)
    && (session.Some? ==> c.now >= session.value)
  }

  /** An evaluation that finds FAIL rows and manages to write the marker puts up the guard. */
  lemma FailIsRecorded(m: Marker, c: Context, head: string)
    requires head != "" && SameSessionAndHead(c, head, c.session)
    requires Evaluation(m, c).0 == HasFails && !c.preserveProbe && c.writeSucceeds
    ensures Guarded(Evaluation(m, c).1, head, c.session)
  {
  }

  /** The latest attempt has no FAIL rows and belongs to this run or this session. */
  predicate HasCleanResults(c: Context) {
    && c.identity != Stale && c.results.Some?
    && var region := LatestAttemptRegion(c.results.value);
       FailRows(region) == [] && (IsSkipAttempt(region) ==> c.identity == Match || c.freshAtSkip)
  }

  predicate IsSkip(c: Context) {
    c.results.Some? && IsSkipAttempt(LatestAttemptRegion(c.results.value))
  }

  predicate IsAt(c: Context, head: string) {
    c.HeadKnown() && c.head.value == head
  }

  /** What the guard lets through: with a recorded FAIL, an evaluation of the same session is
      done exactly when its results are clean and either they are a skip for which the FAIL
      was not looked up at the recorded head, or they are current and the closing guard did
      not find the FAIL at the recorded head.  At that head a look-up finds the FAIL exactly
      when the marker can be read. */
  lemma GuardReleasesExactly(m: Marker, c: Context, head: string)
    requires Guarded(m, head, c.session)
    ensures Evaluation(m, c).0.IsDone() <==>
              && HasCleanResults(c)
              && (|| (IsSkip(c) && !(IsAt(c, head) && c.evidenceReads))
                  || ((c.identity == Match || c.freshAtEnd) && !(IsAt(c, head) && c.guardReads)))
  {
    hide LatestAttemptRegion, FailRows, IsSkipAttempt, HasNoRows;
  }

  /** An evaluation at the recorded head that gets past the guard: clean results, and the
      marker could not be read where it mattered. */
  predicate Slips(c: Context) {
    && HasCleanResults(c)
    && ((IsSkip(c) && !c.evidenceReads) || ((c.identity == Match || c.freshAtEnd) && !c.guardReads))
  }

  /** An evaluation at the recorded head that destroys the guard: it reaches the code stamp
      although the FAIL is recorded, and stamps a marker it could not read. */
  predicate Destroys(c: Context) {
    && HasCleanResults(c) && (IsSkip(c) ==> c.evidenceReads)
    && (c.identity == Match || c.freshAtEnd) && !c.guardReads
    && !c.preserveProbe && !c.stampReads && c.writeSucceeds
  }

  /** At the recorded head a single evaluation gets past the guard exactly when it slips, and
      takes it down exactly when it destroys it. */
  lemma GuardHolds(m: Marker, c: Context, head: string, session: Option<real>)
    requires Guarded(m, head, session) && SameSessionAndHead(c, head, session)
    ensures Evaluation(m, c).0.IsDone() <==> Slips(c)
    ensures Guarded(Evaluation(m, c).1, head, session) <==> !Destroys(c)
    ensures Destroys(c) ==> Slips(c)
  {
    hide LatestAttemptRegion, FailRows, IsSkipAttempt, HasNoRows;
  }

  function MarkerAfter(m: Marker, cs: seq<Context>): Marker {
    if cs == [] then m else Evaluation(MarkerAfter(m, cs[..|cs| - 1]), cs[|cs| - 1]).1
  }

  predicate DoneAt(m: Marker, cs: seq<Context>, k: int) {
    0 <= k < |cs| && Evaluation(MarkerAfter(m, cs[..k]), cs[k]).0.IsDone()
  }

  predicate SlipsAt(cs: seq<Context>, k: int) {
    0 <= k < |cs| && Slips(cs[k])
  }

  /** The whitewash guard over a run: after a recorded FAIL, as long as the session and the
      head stay the same, some evaluation is done if and only if one slips past an unreadable
      marker.  Nothing that is done to the results file, and no answer about the run identity
      or the code validity, lets an evaluation be done whose marker reads succeed. */
  lemma NoWhitewash(m: Marker, first: Context, head: string, cs: seq<Context>)
    requires head != "" && SameSessionAndHead(first, head, first.session)
    requires Evaluation(m, first).0 == HasFails && !first.preserveProbe && first.writeSucceeds
    requires forall i :: 0 <= i < |cs| ==> SameSessionAndHead(cs[i], head, first.session)
    ensures (exists k :: DoneAt(Evaluation(m, first).1, cs, k)) <==> (exists k :: SlipsAt(cs, k))
    ensures forall k :: SlipsAt(cs, k) ==> !cs[k].evidenceReads || !cs[k].guardReads
  {
    hide Evaluation, Guarded, Slips;
    FailIsRecorded(m, first, head);
    var guarded := Evaluation(m, first).1;
    var n := FirstWhere(cs, 0, Slips);
    forall k | 0 <= k <= n && k < |cs|
      ensures DoneAt(guarded, cs, k) <==> SlipsAt(cs, k)
    {
      GuardStays(guarded, head, first.session, cs[..k]);
      GuardHolds(MarkerAfter(guarded, cs[..k]), cs[k], head, first.session);
    }
    forall k | SlipsAt(cs, k)
      ensures !cs[k].evidenceReads || !cs[k].guardReads
    {
      SlipsUnread(cs[k]);
    }
    if n < |cs| {
      assert SlipsAt(cs, n) && DoneAt(guarded, cs, n);
    }
  }

  lemma SlipsUnread(c: Context)
    requires Slips(c)
    ensures !c.evidenceReads || !c.guardReads
  {
  }

  lemma {:induction false} GuardStays(m: Marker, head: string, session: Option<real>, cs: seq<Context>)
    requires Guarded(m, head, session)
    requires forall i :: 0 <= i < |cs| ==> SameSessionAndHead(cs[i], head, session) && !Slips(cs[i])
    ensures Guarded(MarkerAfter(m, cs), head, session)
  {
    hide Evaluation, Guarded, Slips;
    if cs == [] {
    } else {
      var n := |cs| - 1;
      GuardStays(m, head, session, cs[..n]);
      GuardHolds(MarkerAfter(m, cs[..n]), cs[n], head, session);
    }
  }

  // ---------- one unreadable marker loses the FAIL ----------

  /** An evaluation at head `a1` with an empty results file of this run. */
  function Clean(readable: bool): Context {
    Context(None, 0.0, Some("a1"), Some(""), Match, true, false, true, true, false, readable, readable, readable, readable, true, true)
  }

  /** A recorded FAIL, then one evaluation of a clean attempt that cannot read the marker: it
      is done at the unchanged head, and its stamp leaves a marker without the FAIL, so that
      every later evaluation, reading the marker without trouble, is done as well. */
  lemma UnreadableMarkerLosesFail(failRows: seq<string>)
    ensures var m := Recorded(0.0, "a1", failRows);
            && Guarded(m, "a1", None)
            && !Evaluation(m, Clean(true)).0.IsDone()
            && var (v, lost) := Evaluation(m, Clean(false));
               v.IsDone() && !Guarded(lost, "a1", None) && Evaluation(lost, Clean(true)).0.IsDone()
  {
    hide HasNoRows, AttemptHeadingAt, Recorded;
    EmptyIsClean();
    RecordedGuards(failRows);
    var m := Recorded(0.0, "a1", failRows);
    GuardHolds(m, Clean(true), "a1", None);
    GuardHolds(m, Clean(false), "a1", None);
    assert Evaluation(m, Clean(false)).1 == Stamped(NoMarker, "a1");
  }

  lemma RecordedGuards(failRows: seq<string>)
    ensures Guarded(Recorded(0.0, "a1", failRows), "a1", None)
  {
  }

  lemma EmptyIsClean()
    ensures LatestAttemptRegion("") == "" && FailRows("") == [] && !IsSkipAttempt("")
  {
    hide RunEnd, MatchesIgnoringCase, IsFailRow, IsSkipLine;
    EmptyLine();
    assert Split("", '\n') == [""];
    assert [""][..0] == [] && FilterFails([""]) == [];
  }

  lemma EmptyLine()
    ensures !IsFailRow("") && !IsSkipLine("")
  {
    assert Trim("") == "" && Split("", '|') == [""];
  }
}
