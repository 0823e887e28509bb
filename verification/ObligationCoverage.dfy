/** Coverage of architecture decisions by a plan: the rows of the coverage table against the
    decisions required and the Done-when checks of the plan's tasks. */
module ObligationCoverage {
  import opened Json
  import opened ObligationTable
  import FindingIds

  datatype Disposition = Task | Existing | NoChange

  datatype Reason =
    | MissingRow | Duplicate | Invented | MalformedRow | InvalidDisposition | TaskRequired | InvalidTaskCitation
    | UnexpectedTask | TaskMissing | EvidenceMissing | EvidenceUngrounded

  datatype Violation = Violation(decisionId: string, reason: Reason)

  datatype Mapping = Mapping(decisionId: string, disposition: Option<Disposition>, taskIds: seq<string>, evidence: string)

  // ---------- cells ----------

  /** Whether `text.toLowerCase()` is an ASCII word.  Beyond the ASCII letters only the Kelvin
      sign becomes an ASCII letter. */
  predicate LowersTo(text: string, word: string) {
    |text| == |word| && forall i :: 0 <= i < |text| ==> (if text[i] == '\U{212A}' then 'k' else Lower(text[i])) == word[i]
  }

  function ParseDisposition(cell: string): Option<Disposition> {
    var t := Trim(cell);
    if LowersTo(t, "task") then Some(Task)
    else if LowersTo(t, "existing") then Some(Existing)
    else if LowersTo(t, "no-change") then Some(NoChange)
    else None
  }

  predicate IsEmptyTaskCell(cell: string) {
    cell == "" || Says(cell, "none") || Says(cell, "n/a") || cell == "\U{2014}" || cell == "-"
  }

  function TrimmedParts(parts: seq<string>): (r: seq<string>)
    ensures forall i :: 0 <= i < |r| ==> r[i] != ""
  {
    if parts == [] then []
    else
      var t := Trim(parts[|parts| - 1]);
      TrimmedParts(parts[..|parts| - 1]) + (if t == "" then [] else [t])
  }

  predicate IsTaskCitation(s: string) {
    |s| > 5 && Says(s[..5], "task-") && forall i :: 5 <= i < |s| ==> !IsLineEnd(s[i])
  }

  function TaskId(citation: string): string {
    if IsTaskCitation(citation) then Trim(citation[5..]) else citation
  }

  function TaskIds(citations: seq<string>): (ids: seq<string>)
    ensures |ids| == |citations| && forall i :: 0 <= i < |ids| ==> ids[i] == TaskId(citations[i])
  {
    seq(|citations|, i requires 0 <= i < |citations| => TaskId(citations[i]))
  }

  function Citations(cell: string): seq<string> {
    var t := Trim(cell);
    if IsEmptyTaskCell(t) then [] else TrimmedParts(Split(t, ','))
  }

  function Unquote(cell: string): string {
    var t := Trim(cell);
    if |t| >= 2 && ((t[0] == '"' && t[|t| - 1] == '"') || (t[0] == '\U{201C}' && t[|t| - 1] == '\U{201D}'))
    then t[1..|t| - 1] else t
  }

  /** Whitespace runs become one space, from the left; `gap` says a run is being passed. */
  function Collapse(s: string, gap: bool): string {
    if s == "" then (if gap then " " else "")
    else if IsSpace(s[0]) then Collapse(s[1..], true)
    else (if gap then [' ', s[0]] else [s[0]]) + Collapse(s[1..], false)
  }

  function Normalize(s: string): string {
    Trim(Collapse(s, false))
  }

  predicate Contains(s: string, part: string) {
    exists i :: 0 <= i <= |s| && PartAt(s, part, i)
  }

  predicate PartAt(s: string, part: string, i: nat) {
    i + |part| <= |s| && s[i..i + |part|] == part
  }

  // ---------- rows ----------

  function WithoutColons(cell: string): string {
    var s := if cell != "" && cell[0] == ':' then cell[1..] else cell;
    if s != "" && s[|s| - 1] == ':' then s[..|s| - 1] else s
  }

  predicate IsSeparatorCell(cell: string) {
    var t := WithoutColons(cell);
    |t| >= 2 && forall i :: 0 <= i < |t| ==> t[i] == '-'
  }

  predicate IsSeparatorRow(cells: seq<string>) {
    cells != [] && forall i :: 0 <= i < |cells| ==> IsSeparatorCell(cells[i])
  }

  function FirstSeparator(table: seq<seq<string>>, from: nat): (i: nat)
    requires from <= |table|
    ensures from <= i <= |table|
    decreases |table| - from
  {
    if from == |table| || IsSeparatorRow(table[from]) then from else FirstSeparator(table, from + 1)
  }

  /** The rows after the header and the separator. */
  function DataRows(table: seq<seq<string>>): seq<seq<string>> {
    if table == [] then []
    else
      var i := FirstSeparator(table, 1);
      if i == |table| then [] else table[i + 1..]
  }

  /** `n` counts the data rows from one. */
  function DecisionId(cells: seq<string>, n: nat): string {
    var id := if cells == [] then "" else Trim(cells[0]);
    if id == "" then "row-" + FindingIds.Decimal(n) else id
  }

  function MappingOf(cells: seq<string>, n: nat): Mapping
    requires |cells| == 4
  {
    Mapping(DecisionId(cells, n), ParseDisposition(cells[1]), TaskIds(Citations(cells[2])), Unquote(cells[3]))
  }

  function When(condition: bool, id: string, reason: Reason): seq<Violation> {
    if condition then [Violation(id, reason)] else []
  }

  predicate AllCitationsValid(citations: seq<string>) {
    forall i :: 0 <= i < |citations| ==> IsTaskCitation(citations[i])
  }

  /** The violations a row has by itself. */
  function RowViolations(cells: seq<string>, n: nat): seq<Violation> {
    var id := DecisionId(cells, n);
    if |cells| != 4 then [Violation(id, MalformedRow)]
    else
      var m := MappingOf(cells, n);
      When(m.disposition.None?, id, InvalidDisposition)
      + When(m.disposition == Some(Task) && m.taskIds == [], id, TaskRequired)
      + When(!AllCitationsValid(Citations(cells[2])), id, InvalidTaskCitation)
      + When((m.disposition == Some(Existing) || m.disposition == Some(NoChange)) && m.taskIds != [], id, UnexpectedTask)
      + When(Normalize(m.evidence) == "", id, EvidenceMissing)
  }

  datatype Parsed = Parsed(mappings: seq<Mapping>, violations: seq<Violation>)

  function ParseRows(rows: seq<seq<string>>): Parsed {
    if rows == [] then Parsed([], [])
    else
      var n := |rows| - 1;
      var p := ParseRows(rows[..n]);
      Parsed(p.mappings + (if |rows[n]| == 4 then [MappingOf(rows[n], n + 1)] else []),
             p.violations + RowViolations(rows[n], n + 1))
  }

  /** How the header, the separator and the data rows fare when a row is added. */
  lemma NextRow(table: seq<seq<string>>, cells: seq<string>)
    ensures var more := table + [cells];
            if table == [] then FirstSeparator(more, 1) == |more| && DataRows(table) == DataRows(more) == []
            else if FirstSeparator(table, 1) < |table| then
              FirstSeparator(more, 1) == FirstSeparator(table, 1) && DataRows(more) == DataRows(table) + [cells]
            else FirstSeparator(more, 1) == (if IsSeparatorRow(cells) then |table| else |more|) && DataRows(table) == DataRows(more) == []
  {
    hide IsSeparatorRow, FirstSeparator;
    var more := table + [cells];
    if table == [] {
    } else {
      SeparatorKept(table, cells, 1);
      var i := FirstSeparator(table, 1);
      if i < |table| {
        assert more[i + 1..] == table[i + 1..] + [cells];
      } else {
        assert more[|more|..] == [];
      }
    }
  }

  lemma NextParsed(rows: seq<seq<string>>, cells: seq<string>)
    ensures ParseRows([]) == Parsed([], []) && DataRows([]) == []
    ensures var p := ParseRows(rows);
            ParseRows(rows + [cells]) ==
            Parsed(p.mappings + (if |cells| == 4 then [MappingOf(cells, |rows| + 1)] else []),
                   p.violations + RowViolations(cells, |rows| + 1))
  {
    hide MappingOf, RowViolations;
    assert (rows + [cells])[..|rows|] == rows;
  }

  lemma {:induction false} SeparatorKept(table: seq<seq<string>>, cells: seq<string>, from: nat)
    requires from <= |table|
    ensures FirstSeparator(table + [cells], from) ==
            if FirstSeparator(table, from) < |table| then FirstSeparator(table, from)
            else if IsSeparatorRow(cells) then |table| else |table| + 1
    decreases |table| - from
  {
    hide IsSeparatorRow;
    if from >= |table| {
    } else {
      SeparatorKept(table, cells, from + 1);
    }
  }

  /** Reads the section line by line, remembering whether the header and the separator have
      been seen and how many data rows have. */
  method ParseMappings(planText: string) returns (p: Parsed)
    ensures p == ParseRows(DataRows(TableOf(planText)))
  {
    hide RowViolations, MappingOf, IsSeparatorRow, RowOf, SectionOf, FirstSeparator, DataRows, ParseRows;
    var section := SectionLines(planText);
    var mappings: seq<Mapping> := [];
    var violations: seq<Violation> := [];
    var sawHeader, sawSeparator := false, false;
    var dataRow := 0;
    ghost var seen: seq<seq<string>> := [];
    NextParsed([], []);
    for k := 0 to |section|
      invariant seen == RowsOf(section[..k])
      invariant sawHeader <==> seen != []
      invariant sawSeparator <==> seen != [] && FirstSeparator(seen, 1) < |seen|
      invariant dataRow == |DataRows(seen)| && Parsed(mappings, violations) == ParseRows(DataRows(seen))
    {
      assert section[..k + 1][..k] == section[..k];
      var row := RowOf(section[k]);
      if row.None? {
        continue;
      }
      var cells := row.value;
      NextRow(seen, cells);
      ghost var before := DataRows(seen);
      seen := seen + [cells];
      if !sawHeader {
        sawHeader := true;
        continue;
      }
      if !sawSeparator {
        if IsSeparatorRow(cells) {
          sawSeparator := true;
        }
        continue;
      }
      NextParsed(before, cells);
      dataRow := dataRow + 1;
      if |cells| == 4 {
        mappings := mappings + [MappingOf(cells, dataRow)];
      }
      violations := violations + RowViolations(cells, dataRow);
    }
    assert section[..|section|] == section;
    p := Parsed(mappings, violations);
  }

  // ---------- the coverage check ----------

  function Ids(ms: seq<Mapping>): (ids: seq<string>)
    ensures |ids| == |ms| && forall i :: 0 <= i < |ms| ==> ids[i] == ms[i].decisionId
  {
    seq(|ms|, i requires 0 <= i < |ms| => ms[i].decisionId)
  }

  function CountOf(ids: seq<string>, id: string): nat {
    if ids == [] then 0 else CountOf(ids[..|ids| - 1], id) + (if ids[|ids| - 1] == id then 1 else 0)
  }

  function RequiredViolations(ids: seq<string>, required: seq<string>): seq<Violation> {
    if required == [] then []
    else
      var id := required[|required| - 1];
      RequiredViolations(ids, required[..|required| - 1])
      + When(CountOf(ids, id) == 0, id, MissingRow) + When(CountOf(ids, id) > 1, id, Duplicate)
  }

  predicate AllDone(m: Mapping, doneWhen: map<string, seq<string>>) {
    forall i :: 0 <= i < |m.taskIds| ==> m.taskIds[i] in doneWhen
  }

  /** One check of one cited task contains the evidence, whitespace apart. */
  predicate Grounded(m: Mapping, doneWhen: map<string, seq<string>>) {
    exists i, j ::
      0 <= i < |m.taskIds| && m.taskIds[i] in doneWhen && 0 <= j < |doneWhen[m.taskIds[i]]| &&
      Contains(Normalize(doneWhen[m.taskIds[i]][j]), Normalize(m.evidence))
  }

  function GroundingViolations(m: Mapping, required: seq<string>, doneWhen: map<string, seq<string>>): seq<Violation> {
    if m.decisionId !in required then [Violation(m.decisionId, Invented)]
    else if m.disposition != Some(Task) || m.taskIds == [] then []
    else if !AllDone(m, doneWhen) then [Violation(m.decisionId, TaskMissing)]
    else if Normalize(m.evidence) == "" then []
    else When(!Grounded(m, doneWhen), m.decisionId, EvidenceUngrounded)
  }

  function AllGrounding(ms: seq<Mapping>, required: seq<string>, doneWhen: map<string, seq<string>>): seq<Violation> {
    if ms == [] then []
    else AllGrounding(ms[..|ms| - 1], required, doneWhen) + GroundingViolations(ms[|ms| - 1], required, doneWhen)
  }

  predicate Distinct(ids: seq<string>) {
    forall i, j :: 0 <= i < j < |ids| ==> ids[i] != ids[j]
  }

  /** The check; the required ids are a set listed in insertion order. */
  method ValidateCoverage(planText: string, required: seq<string>, doneWhen: map<string, seq<string>>)
    returns (violations: seq<Violation>)
    requires Distinct(required)
    ensures violations == Violations(TableOf(planText), required, doneWhen)
  {
    hide ParseRows, DataRows, RequiredViolations, AllGrounding, TableOf;
    var parsed := ParseMappings(planText);
    NothingRequired(parsed, doneWhen);
    violations := parsed.violations;
    if required == [] && parsed.mappings == [] {
      return;
    }
    violations := CheckRequired(parsed.mappings, required, violations);
    violations := CheckGrounding(parsed.mappings, required, doneWhen, violations);
  }

  lemma NothingRequired(p: Parsed, doneWhen: map<string, seq<string>>)
    ensures p.mappings == [] ==>
              p.violations + RequiredViolations(Ids(p.mappings), []) + AllGrounding(p.mappings, [], doneWhen) == p.violations
  {
  }

  method CheckRequired(mappings: seq<Mapping>, required: seq<string>, before: seq<Violation>) returns (violations: seq<Violation>)
    ensures violations == before + RequiredViolations(Ids(mappings), required)
  {
    hide When, CountOf;
    violations := before;
    var counts := CountDecisions(mappings);
    for k := 0 to |required|
      invariant violations == before + RequiredViolations(Ids(mappings), required[..k])
    {
      assert required[..k + 1][..k] == required[..k];
      var id := required[k];
      var n := if id in counts then counts[id] else 0;
      WhenHolds(n == 0, id, MissingRow);
      WhenHolds(n > 1, id, Duplicate);
      if n == 0 {
        violations := violations + [Violation(id, MissingRow)];
      } else if n > 1 {
        violations := violations + [Violation(id, Duplicate)];
      }
    }
    assert required[..|required|] == required;
  }

  method CheckGrounding(mappings: seq<Mapping>, required: seq<string>, doneWhen: map<string, seq<string>>, before: seq<Violation>)
    returns (violations: seq<Violation>)
    ensures violations == before + AllGrounding(mappings, required, doneWhen)
  {
    hide GroundingViolations;
    violations := before;
    for k := 0 to |mappings|
      invariant violations == before + AllGrounding(mappings[..k], required, doneWhen)
    {
      assert mappings[..k + 1][..k] == mappings[..k];
      violations := violations + GroundingViolations(mappings[k], required, doneWhen);
    }
    assert mappings[..|mappings|] == mappings;
  }

  lemma WhenHolds(condition: bool, id: string, reason: Reason)
    ensures When(condition, id, reason) == if condition then [Violation(id, reason)] else []
  {
  }

  method CountDecisions(mappings: seq<Mapping>) returns (counts: map<string, nat>)
    ensures forall id :: (if id in counts then counts[id] else 0) == CountOf(Ids(mappings), id)
  {
    counts := map[];
    var ids := Ids(mappings);
    for k := 0 to |ids|
      invariant forall id :: (if id in counts then counts[id] else 0) == CountOf(ids[..k], id)
    {
      assert ids[..k + 1][..k] == ids[..k];
      counts := counts[ids[k] := (if ids[k] in counts then counts[ids[k]] else 0) + 1];
    }
    assert ids[..|ids|] == ids;
  }

  function Violations(table: seq<seq<string>>, required: seq<string>, doneWhen: map<string, seq<string>>): seq<Violation> {
    var p := ParseRows(DataRows(table));
    p.violations + RequiredViolations(Ids(p.mappings), required) + AllGrounding(p.mappings, required, doneWhen)
  }

  // ---------- soundness and completeness ----------

  /** A row that covers its decision on its own terms. */
  predicate RowCovers(cells: seq<string>, n: nat, doneWhen: map<string, seq<string>>) {
    && |cells| == 4
    && var m := MappingOf(cells, n);
       && m.disposition.Some?
       && Normalize(m.evidence) != ""
       && if m.disposition == Some(Task) then
            m.taskIds != [] && AllCitationsValid(Citations(cells[2])) && AllDone(m, doneWhen) && Grounded(m, doneWhen)
          else m.taskIds == []
  }

  function RowIds(rows: seq<seq<string>>): (ids: seq<string>)
    ensures |ids| == |rows| && forall k :: 0 <= k < |rows| ==> ids[k] == DecisionId(rows[k], k + 1)
  {
    seq(|rows|, k requires 0 <= k < |rows| => DecisionId(rows[k], k + 1))
  }

  predicate OnlyAt(ids: seq<string>, id: string, k: nat) {
    k < |ids| && forall j :: 0 <= j < |ids| ==> (ids[j] == id <==> j == k)
  }

  /** Exactly one data row has the id. */
  ghost predicate CoveredOnce(rows: seq<seq<string>>, id: string) {
    exists k: nat :: OnlyAt(RowIds(rows), id, k)
  }

  /** The rows and the required decisions match one to one, and every row covers. */
  ghost predicate Covers(rows: seq<seq<string>>, required: seq<string>, doneWhen: map<string, seq<string>>) {
    && (forall k :: 0 <= k < |rows| ==> RowCovers(rows[k], k + 1, doneWhen) && DecisionId(rows[k], k + 1) in required)
    && forall i :: 0 <= i < |required| ==> CoveredOnce(rows, required[i])
  }

  lemma {:induction false} RowsClean(rows: seq<seq<string>>)
    ensures ParseRows(rows).violations == [] <==> forall k :: 0 <= k < |rows| ==> RowViolations(rows[k], k + 1) == []
    ensures (forall k :: 0 <= k < |rows| ==> |rows[k]| == 4) ==>
              && |ParseRows(rows).mappings| == |rows|
              && forall k :: 0 <= k < |rows| ==> ParseRows(rows).mappings[k] == MappingOf(rows[k], k + 1)
  {
    hide RowViolations, MappingOf;
    if rows == [] {
    } else {
      RowsClean(rows[..|rows| - 1]);
    }
  }

  lemma {:induction false} GroundingClean(ms: seq<Mapping>, required: seq<string>, doneWhen: map<string, seq<string>>)
    ensures AllGrounding(ms, required, doneWhen) == [] <==>
              forall k :: 0 <= k < |ms| ==> GroundingViolations(ms[k], required, doneWhen) == []
  {
    hide GroundingViolations;
    if ms == [] {
    } else {
      var n := |ms| - 1;
      GroundingClean(ms[..n], required, doneWhen);
      assert forall k :: 0 <= k < n ==> ms[..n][k] == ms[k];
    }
  }

  lemma {:induction false} RequiredClean(ids: seq<string>, required: seq<string>)
    ensures RequiredViolations(ids, required) == [] <==> forall i :: 0 <= i < |required| ==> CountOf(ids, required[i]) == 1
  {
    hide CountOf;
    if required == [] {
    } else {
      RequiredClean(ids, required[..|required| - 1]);
    }
  }

  lemma {:induction false} CountNone(ids: seq<string>, id: string)
    ensures CountOf(ids, id) == 0 <==> id !in ids
  {
    if ids == [] {
    } else {
      CountNone(ids[..|ids| - 1], id);
      assert ids == ids[..|ids| - 1] + [ids[|ids| - 1]];
    }
  }

  lemma {:induction false} CountOne(ids: seq<string>, id: string)
    ensures CountOf(ids, id) == 1 <==> exists k: nat :: OnlyAt(ids, id, k)
  {
    if ids == [] {
    } else {
      var n := |ids| - 1;
      CountOne(ids[..n], id);
      CountNone(ids[..n], id);
      if CountOf(ids, id) == 1 {
        if ids[n] == id {
          assert OnlyAt(ids, id, n);
        } else {
          var k: nat :| OnlyAt(ids[..n], id, k);
          assert OnlyAt(ids, id, k);
        }
      }
      if k: nat :| OnlyAt(ids, id, k) {
        if k < n {
          assert OnlyAt(ids[..n], id, k);
        } else {
          assert id !in ids[..n];
        }
      }
    }
  }

  lemma WhenEmpty(condition: bool, id: string, reason: Reason)
    ensures When(condition, id, reason) == [] <==> !condition
  {
  }

  lemma NoneOfFive(a: seq<Violation>, b: seq<Violation>, c: seq<Violation>, d: seq<Violation>, e: seq<Violation>)
    ensures a + b + c + d + e == [] <==> a == [] && b == [] && c == [] && d == [] && e == []
  {
    assert |a + b + c + d + e| == |a| + |b| + |c| + |d| + |e|;
  }

  lemma RowClean(cells: seq<string>, n: nat)
    requires |cells| == 4
    ensures var m := MappingOf(cells, n);
            RowViolations(cells, n) == [] <==>
              && m.disposition.Some?
              && (m.disposition == Some(Task) ==> m.taskIds != [])
              && AllCitationsValid(Citations(cells[2]))
              && (m.disposition != Some(Task) ==> m.taskIds == [])
              && Normalize(m.evidence) != ""
  {
    hide Citations, Unquote, Normalize, ParseDisposition, DecisionId, AllCitationsValid, TaskIds, When;
    var m, id := MappingOf(cells, n), DecisionId(cells, n);
    var c1, c2 := m.disposition.None?, m.disposition == Some(Task) && m.taskIds == [];
    var c3 := !AllCitationsValid(Citations(cells[2]));
    var c4 := (m.disposition == Some(Existing) || m.disposition == Some(NoChange)) && m.taskIds != [];
    var c5 := Normalize(m.evidence) == "";
    WhenEmpty(c1, id, InvalidDisposition);
    WhenEmpty(c2, id, TaskRequired);
    WhenEmpty(c3, id, InvalidTaskCitation);
    WhenEmpty(c4, id, UnexpectedTask);
    WhenEmpty(c5, id, EvidenceMissing);
    NoneOfFive(When(c1, id, InvalidDisposition), When(c2, id, TaskRequired), When(c3, id, InvalidTaskCitation),
               When(c4, id, UnexpectedTask), When(c5, id, EvidenceMissing));
    assert RowViolations(cells, n) ==
           When(c1, id, InvalidDisposition) + When(c2, id, TaskRequired) + When(c3, id, InvalidTaskCitation)
           + When(c4, id, UnexpectedTask) + When(c5, id, EvidenceMissing);
    match m.disposition {
      case None =>
      case Some(Task) =>
      case Some(_) =>
    }
  }

  lemma RowExactly(cells: seq<string>, n: nat, required: seq<string>, doneWhen: map<string, seq<string>>)
    requires |cells| == 4
    ensures RowViolations(cells, n) == [] && GroundingViolations(MappingOf(cells, n), required, doneWhen) == [] <==>
              RowCovers(cells, n, doneWhen) && DecisionId(cells, n) in required
  {
    hide RowViolations, Citations, Unquote, Normalize, ParseDisposition, DecisionId, AllDone, Grounded, IsTaskCitation, TaskId;
    RowClean(cells, n);
  }

  /** The check reports nothing exactly when the rows match the required decisions one to one
      and every row covers its decision: no gap in the table escapes it, and no complete
      table is refused. */
  lemma CoverageExactly(table: seq<seq<string>>, required: seq<string>, doneWhen: map<string, seq<string>>)
    ensures Violations(table, required, doneWhen) == [] <==> Covers(DataRows(table), required, doneWhen)
  {
    hide DataRows, RowViolations, GroundingViolations, RowCovers, ParseRows, CountOf, CoveredOnce, MappingOf;
    var rows := DataRows(table);
    var ms := ParseRows(rows).mappings;
    RowsClean(rows);
    GroundingClean(ms, required, doneWhen);
    RequiredClean(Ids(ms), required);
    if k :| 0 <= k < |rows| && |rows[k]| != 4 {
      MalformedRowShows(rows[k], k + 1, doneWhen);
    } else {
      forall k | 0 <= k < |rows|
        ensures RowViolations(rows[k], k + 1) == [] && GroundingViolations(ms[k], required, doneWhen) == [] <==>
                RowCovers(rows[k], k + 1, doneWhen) && DecisionId(rows[k], k + 1) in required
      {
        RowExactly(rows[k], k + 1, required, doneWhen);
      }
      forall i | 0 <= i < |required|
        ensures CountOf(Ids(ms), required[i]) == 1 <==> CoveredOnce(rows, required[i])
      {
        OnceExactly(rows, ms, required[i]);
      }
    }
  }

  lemma MalformedRowShows(cells: seq<string>, n: nat, doneWhen: map<string, seq<string>>)
    requires |cells| != 4
    ensures RowViolations(cells, n) != [] && !RowCovers(cells, n, doneWhen)
  {
  }

  lemma OnceExactly(rows: seq<seq<string>>, ms: seq<Mapping>, id: string)
    requires |ms| == |rows| && forall k :: 0 <= k < |rows| ==> |rows[k]| == 4 && ms[k] == MappingOf(rows[k], k + 1)
    ensures CountOf(Ids(ms), id) == 1 <==> CoveredOnce(rows, id)
  {
    hide DecisionId, TaskIds, Unquote, ParseDisposition, CountOf, OnlyAt;
    CountOne(Ids(ms), id);
    assert Ids(ms) == RowIds(rows);
  }
}
