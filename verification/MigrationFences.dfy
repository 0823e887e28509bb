/** Recognition of `bash migration` fences in Markdown changelogs: one pass over the lines
    against a definition that looks at each line's place in the whole text. */
module MigrationFences {
  import opened Json

  // ---------- lines ----------

  /** The characters at which `str.splitlines` ends a line. */
  predicate IsLineBreak(c: char) {
    || '\U{000A}' <= c <= '\U{000D}' || '\U{001C}' <= c <= '\U{001E}'
    || c == '\U{0085}' || c == '\U{2028}' || c == '\U{2029}'
  }

  /** `str.isspace`, `str.strip` and `\s` in Python. */
  predicate IsPythonSpace(c: char) {
    || '\U{0009}' <= c <= '\U{000D}' || '\U{001C}' <= c <= '\U{0020}'
    || c == '\U{0085}' || c == '\U{00A0}' || c == '\U{1680}'
    || '\U{2000}' <= c <= '\U{200A}'
    || c == '\U{2028}' || c == '\U{2029}' || c == '\U{202F}' || c == '\U{205F}' || c == '\U{3000}'
  }

  /** Where the first line of a non-empty text ends; its break belongs to it. */
  function LineEnd(text: string, i: nat): (end: nat)
    requires i < |text|
    ensures i < end <= |text|
    decreases |text| - i
  {
    if text[i] == '\r' && i + 1 < |text| && text[i + 1] == '\n' then i + 2
    else if IsLineBreak(text[i]) || i + 1 == |text| then i + 1
    else LineEnd(text, i + 1)
  }

  /** `text.splitlines(keepends=True)`. */
  function SplitLines(text: string): seq<string> {
    if text == "" then []
    else
      var end := LineEnd(text, 0);
      [text[..end]] + SplitLines(text[end..])
  }

  /** Splitting loses nothing. */
  lemma {:induction false} SplitConcat(text: string)
    ensures Concat(SplitLines(text)) == text
  {
    if text == "" {
    } else {
      var end := LineEnd(text, 0);
      SplitConcat(text[end..]);
      ConcatSplit([text[..end]], SplitLines(text[end..]));
      assert Concat([text[..end]]) == text[..end] by {
        assert [text[..end]][..0] == [];
      }
    }
  }

  function OffsetOf(lines: seq<string>, i: nat): nat
    requires i <= |lines|
  {
    |Concat(lines[..i])|
  }

  lemma Slice(lines: seq<string>, i: nat, k: nat)
    requires i <= k <= |lines|
    ensures OffsetOf(lines, i) <= OffsetOf(lines, k) <= |Concat(lines)|
    ensures Concat(lines)[OffsetOf(lines, i)..OffsetOf(lines, k)] == Concat(lines[i..k])
  {
    ConcatSplit(lines[..i], lines[i..k]);
    assert lines[..i] + lines[i..k] == lines[..k];
    ConcatSplit(lines[..k], lines[k..]);
    assert lines[..k] + lines[k..] == lines;
  }

  // ---------- what one line is ----------

  function RunLength(line: string, c: char): (n: nat)
    ensures n <= |line| && forall k :: 0 <= k < n ==> line[k] == c
    ensures n < |line| ==> line[n] != c
  {
    if line != "" && line[0] == c then 1 + RunLength(line[1..], c) else 0
  }

  predicate IsBlank(s: string) {
    forall k :: 0 <= k < |s| ==> IsPythonSpace(s[k])
  }

  function Lstrip(s: string): string {
    if s != "" && IsPythonSpace(s[0]) then Lstrip(s[1..]) else s
  }

  function Rstrip(s: string): string {
    if s != "" && IsPythonSpace(s[|s| - 1]) then Rstrip(s[..|s| - 1]) else s
  }

  const MIGRATION := "Migration"

  predicate IsMigrationHeading(line: string) {
    var n := RunLength(line, '#');
    && 2 <= n <= 3
    && n < |line| && IsPythonSpace(line[n])
    && var rest := Lstrip(line[n..]);
       MIGRATION <= rest && IsBlank(rest[|MIGRATION|..])
  }

  predicate IsSectionHeading(line: string) {
    var n := RunLength(line, '#');
    1 <= n <= 3 && n < |line| && IsPythonSpace(line[n])
  }

  datatype Fence = Fence(marker: char, width: nat)

  /** The fence a line opens, if it opens one. */
  function Opens(line: string): Option<Fence> {
    if RunLength(line, '`') >= 3 then Some(Fence('`', RunLength(line, '`')))
    else if RunLength(line, '~') >= 3 then Some(Fence('~', RunLength(line, '~')))
    else None
  }

  predicate Closes(line: string, f: Fence) {
    var n := RunLength(line, f.marker);
    n >= f.width && IsBlank(line[n..])
  }

  predicate IsCandidate(line: string) {
    Opens(line) == Some(Fence('`', 3)) && Rstrip(Lstrip(line[3..])) == "bash migration"
  }

  // ---------- a line's place in the whole text ----------

  /** The fence open in front of line `i`. */
  function FenceBefore(lines: seq<string>, i: nat): Option<Fence>
    requires i <= |lines|
  {
    if i == 0 then None
    else
      match FenceBefore(lines, i - 1)
      case Some(f) => if Closes(lines[i - 1], f) then None else Some(f)
      case None => Opens(lines[i - 1])
  }

  /** A heading outside every fence. */
  predicate IsDeciding(lines: seq<string>, k: nat)
    requires k < |lines|
  {
    FenceBefore(lines, k).None? && IsSectionHeading(lines[k])
  }

  /** The last deciding heading before line `i`, or -1. */
  function LastDeciding(lines: seq<string>, i: nat): (k: int)
    requires i <= |lines|
    ensures -1 <= k < i
    ensures k >= 0 ==> IsDeciding(lines, k)
    ensures forall j :: k < j < i ==> j >= 0 ==> !IsDeciding(lines, j)
  {
    if i == 0 then -1
    else if IsDeciding(lines, i - 1) then i - 1
    else LastDeciding(lines, i - 1)
  }

  /** Whether the last deciding heading before line `i` is a migration heading. */
  predicate InMigrationSection(lines: seq<string>, i: nat)
    requires i <= |lines|
  {
    var k := LastDeciding(lines, i);
    k >= 0 && IsMigrationHeading(lines[k])
  }

  /** A candidate fence that is not itself text inside another fence. */
  predicate StartsRecord(lines: seq<string>, o: nat)
    requires o < |lines|
  {
    FenceBefore(lines, o).None? && IsCandidate(lines[o])
  }

  /** The first line from `k` on that closes the fence, or the number of lines. */
  function FirstCloser(lines: seq<string>, k: nat, f: Fence): (c: nat)
    requires k <= |lines|
    ensures k <= c <= |lines|
    ensures c < |lines| ==> Closes(lines[c], f)
    ensures forall j :: k <= j < c ==> !Closes(lines[j], f)
    decreases |lines| - k
  {
    if k == |lines| || Closes(lines[k], f) then k else FirstCloser(lines, k + 1, f)
  }

  datatype MigrationFence = MigrationFence(
    sourceStart: nat,
    sourceEnd: nat,
    script: string,
    inMigrationSection: bool,
    closed: bool)

  const CANDIDATE := Fence('`', 3)

  function RecordAt(lines: seq<string>, o: nat): MigrationFence
    requires o < |lines|
  {
    var c := FirstCloser(lines, o + 1, CANDIDATE);
    MigrationFence(OffsetOf(lines, o), OffsetOf(lines, if c < |lines| then c + 1 else c),
                   Concat(lines[o + 1..c]), InMigrationSection(lines, o), c < |lines|)
  }

  /** The records of the candidates among the first `n` lines. */
  function Records(lines: seq<string>, n: nat): seq<MigrationFence>
    requires n <= |lines|
  {
    if n == 0 then []
    else Records(lines, n - 1) + (if StartsRecord(lines, n - 1) then [RecordAt(lines, n - 1)] else [])
  }

  // ---------- the one pass ----------

  /** A migration heading is a section heading, and a heading opens no fence. */
  lemma Headings(line: string)
    ensures IsMigrationHeading(line) ==> IsSectionHeading(line)
    ensures IsSectionHeading(line) ==> Opens(line).None?
  {
  }

  /** Inside a fence nothing starts a record, up to and including its closer. */
  lemma {:induction false} Inside(lines: seq<string>, o: nat, i: nat)
    requires o < i <= |lines| && StartsRecord(lines, o)
    requires i <= FirstCloser(lines, o + 1, CANDIDATE)
    ensures FenceBefore(lines, i) == Some(CANDIDATE)
    ensures Records(lines, i) == Records(lines, o + 1)
  {
    if o + 1 >= i {
    } else {
      Inside(lines, o, i - 1);
    }
  }

  lemma CloserReached(lines: seq<string>, o: nat, i: nat)
    requires o < i <= |lines| && i <= FirstCloser(lines, o + 1, CANDIDATE)
    ensures i < |lines| && Closes(lines[i], CANDIDATE) ==> FirstCloser(lines, o + 1, CANDIDATE) == i
    ensures i < |lines| && !Closes(lines[i], CANDIDATE) ==> i + 1 <= FirstCloser(lines, o + 1, CANDIDATE)
    ensures i == |lines| ==> FirstCloser(lines, o + 1, CANDIDATE) == i
  {
  }

  /** The memory of the scanner between two lines. */
  datatype Pass = Pass(
    found: seq<MigrationFence>,
    inMigrationSection: bool,
    fence: Option<Fence>,
    candidateStart: Option<nat>,
    candidateSection: bool,
    candidateScript: string,
    offset: nat)

  /** What the memory holds in front of line `i`; `o` is the line that opened the candidate
      being collected. */
  predicate PassAt(lines: seq<string>, i: nat, o: nat, p: Pass)
    requires i <= |lines|
  {
    && p.fence == FenceBefore(lines, i)
    && p.inMigrationSection == InMigrationSection(lines, i)
    && p.offset == OffsetOf(lines, i)
    && if p.candidateStart.None? then p.found == Records(lines, i) else Collecting(lines, i, o, p)
  }

  predicate Collecting(lines: seq<string>, i: nat, o: nat, p: Pass)
    requires i <= |lines| && p.candidateStart.Some?
  {
    && o < i && StartsRecord(lines, o) && i <= FirstCloser(lines, o + 1, CANDIDATE)
    && p.fence == Some(CANDIDATE)
    && p.found == Records(lines, o)
    && p.candidateStart.value == OffsetOf(lines, o)
    && p.candidateSection == InMigrationSection(lines, o)
    && p.candidateScript == Concat(lines[o + 1..i])
  }

  lemma OffsetNext(lines: seq<string>, i: nat)
    requires i < |lines|
    ensures OffsetOf(lines, i + 1) == OffsetOf(lines, i) + |lines[i]|
  {
    assert lines[..i + 1][..i] == lines[..i];
  }

  lemma ScriptNext(lines: seq<string>, o: nat, i: nat)
    requires o < i < |lines|
    ensures Concat(lines[o + 1..i + 1]) == Concat(lines[o + 1..i]) + lines[i]
  {
    assert lines[o + 1..i + 1][..i - o - 1] == lines[o + 1..i];
  }

  lemma SectionInFence(lines: seq<string>, i: nat)
    requires i < |lines| && FenceBefore(lines, i).Some?
    ensures InMigrationSection(lines, i + 1) == InMigrationSection(lines, i)
    ensures Records(lines, i + 1) == Records(lines, i)
  {
  }

  /** A line inside a fence. */
  lemma StepInside(lines: seq<string>, i: nat, o: nat, p: Pass)
    requires i < |lines| && PassAt(lines, i, o, p) && p.fence.Some? && !Closes(lines[i], p.fence.value)
    ensures PassAt(lines, i + 1, o, p.(offset := p.offset + |lines[i]|,
                                        candidateScript := if p.candidateStart.Some? then p.candidateScript + lines[i] else p.candidateScript))
  {
    hide IsMigrationHeading, IsSectionHeading, Opens, Closes, IsCandidate, Concat, InMigrationSection, OffsetOf;
    OffsetNext(lines, i);
    SectionInFence(lines, i);
    if p.candidateStart.Some? {
      CloserReached(lines, o, i);
      ScriptNext(lines, o, i);
    }
  }

  /** The line that closes a fence. */
  lemma StepClose(lines: seq<string>, i: nat, o: nat, p: Pass)
    requires i < |lines| && PassAt(lines, i, o, p) && p.fence.Some? && Closes(lines[i], p.fence.value)
    ensures var record := MigrationFence(if p.candidateStart.Some? then p.candidateStart.value else 0, p.offset + |lines[i]|,
                                         p.candidateScript, p.candidateSection, true);
            PassAt(lines, i + 1, o, p.(offset := p.offset + |lines[i]|, fence := None, candidateStart := None,
                                        found := if p.candidateStart.Some? then p.found + [record] else p.found))
  {
    hide IsMigrationHeading, IsSectionHeading, Opens, Closes, IsCandidate, Concat, InMigrationSection, OffsetOf;
    OffsetNext(lines, i);
    SectionInFence(lines, i);
    if p.candidateStart.Some? {
      CloserReached(lines, o, i);
      Inside(lines, o, i);
    }
  }

  /** A line outside every fence. */
  lemma StepOutside(lines: seq<string>, i: nat, o: nat, p: Pass)
    requires i < |lines| && PassAt(lines, i, o, p) && p.fence.None?
    ensures var line := lines[i];
            var section := if IsMigrationHeading(line) then true
                           else p.inMigrationSection && !IsSectionHeading(line);
            var q := p.(offset := p.offset + |line|, inMigrationSection := section, fence := Opens(line));
            if IsCandidate(line)
            then PassAt(lines, i + 1, i, q.(candidateStart := Some(p.offset), candidateSection := p.inMigrationSection, candidateScript := ""))
            else PassAt(lines, i + 1, o, q)
    ensures IsSectionHeading(lines[i]) ==> Opens(lines[i]).None? && !IsCandidate(lines[i])
    ensures IsMigrationHeading(lines[i]) ==> Opens(lines[i]).None? && !IsCandidate(lines[i])
  {
    OffsetNext(lines, i);
    Headings(lines[i]);
    SectionOutside(lines, i);
    if IsCandidate(lines[i]) {
      assert lines[i + 1..i + 1] == [];
    }
  }

  lemma SectionOutside(lines: seq<string>, i: nat)
    requires i < |lines| && FenceBefore(lines, i).None?
    ensures InMigrationSection(lines, i + 1) ==
            if IsSectionHeading(lines[i]) then IsMigrationHeading(lines[i]) else InMigrationSection(lines, i)
  {
  }

  /** The scanner: one loop whose only memory is the section flag, the open fence and the
      candidate being collected.  It finds exactly the records that the definition gives. */
  method ScanMigrationFences(text: string) returns (found: seq<MigrationFence>)
    ensures found == Records(SplitLines(text), |SplitLines(text)|)
  {
    hide IsMigrationHeading, IsSectionHeading, Opens, Closes, IsCandidate, PassAt, SplitLines, Records, RecordAt;
    var lines := SplitLines(text);
    var inMigrationSection := false;
    var fence: Option<Fence> := None;
    var candidateStart: Option<nat> := None;
    var candidateSection := false;
    var candidateScript := "";
    var offset: nat := 0;
    found := [];
    ghost var o := 0;
    PassBegins(lines);
    for i := 0 to |lines|
      invariant PassAt(lines, i, o, Pass(found, inMigrationSection, fence, candidateStart, candidateSection, candidateScript, offset))
    {
      ghost var before := Pass(found, inMigrationSection, fence, candidateStart, candidateSection, candidateScript, offset);
      var line := lines[i];
      if fence.Some? {
        if Closes(line, fence.value) {
          StepClose(lines, i, o, before);
          if candidateStart.Some? {
            found := found + [MigrationFence(candidateStart.value, offset + |line|, candidateScript, candidateSection, true)];
            candidateStart := None;
          }
          fence := None;
        } else {
          StepInside(lines, i, o, before);
          if candidateStart.Some? {
            candidateScript := candidateScript + line;
          }
        }
        offset := offset + |line|;
        continue;
      }
      StepOutside(lines, i, o, before);
      if IsMigrationHeading(line) {
        inMigrationSection := true;
        offset := offset + |line|;
        continue;
      }
      if inMigrationSection && IsSectionHeading(line) {
        inMigrationSection := false;
        offset := offset + |line|;
        continue;
      }
      fence := Opens(line);
      if IsCandidate(line) {
        candidateStart, candidateSection, candidateScript := Some(offset), inMigrationSection, "";
        o := i;
      }
      offset := offset + |line|;
    }
    PassEnds(text, o, Pass(found, inMigrationSection, fence, candidateStart, candidateSection, candidateScript, offset));
    if candidateStart.Some? {
      found := found + [MigrationFence(candidateStart.value, |text|, candidateScript, candidateSection, false)];
    }
  }

  lemma PassBegins(lines: seq<string>)
    ensures PassAt(lines, 0, 0, Pass([], false, None, None, false, "", 0))
  {
  }

  lemma PassEnds(text: string, o: nat, p: Pass)
    requires PassAt(SplitLines(text), |SplitLines(text)|, o, p)
    ensures Records(SplitLines(text), |SplitLines(text)|) ==
            if p.candidateStart.None? then p.found
            else p.found + [MigrationFence(p.candidateStart.value, |text|, p.candidateScript, p.candidateSection, false)]
  {
    hide SplitLines, IsMigrationHeading, IsSectionHeading, Opens, Closes, IsCandidate;
    var lines := SplitLines(text);
    SplitConcat(text);
    if p.candidateStart.Some? {
      CloserReached(lines, o, |lines|);
      Inside(lines, o, |lines|);
      assert lines[..|lines|] == lines;
    }
  }

  /** The fences the migration runner may run, in source order. */
  method RunnableMigrationFences(text: string) returns (runnable: seq<MigrationFence>)
    ensures runnable == Runnable(Records(SplitLines(text), |SplitLines(text)|))
  {
    var found := ScanMigrationFences(text);
    runnable := [];
    for i := 0 to |found|
      invariant runnable == Runnable(found[..i])
    {
      assert found[..i + 1][..i] == found[..i];
      if found[i].inMigrationSection && found[i].closed {
        runnable := runnable + [found[i]];
      }
    }
    assert found[..|found|] == found;
  }

  function Runnable(found: seq<MigrationFence>): seq<MigrationFence> {
    if found == [] then []
    else
      var last := found[|found| - 1];
      Runnable(found[..|found| - 1]) + (if last.inMigrationSection && last.closed then [last] else [])
  }

  // ---------- what the records say about the text ----------

  /** The source slice of a record is its opener line, its script and its closer line; without
      a closer it ends with the text. */
  lemma RecordSlice(text: string, o: nat)
    requires o < |SplitLines(text)|
    ensures var lines, r := SplitLines(text), RecordAt(SplitLines(text), o);
            && r.sourceStart <= r.sourceEnd <= |text|
            && text[r.sourceStart..r.sourceEnd] ==
               lines[o] + r.script +
               (if r.closed then lines[FirstCloser(lines, o + 1, CANDIDATE)] else "")
            && (!r.closed ==> r.sourceEnd == |text|)
  {
    hide SplitLines, Concat, FirstCloser, InMigrationSection;
    var lines := SplitLines(text);
    SplitConcat(text);
    var c := FirstCloser(lines, o + 1, CANDIDATE);
    var end := if c < |lines| then c + 1 else c;
    Slice(lines, o, end);
    Parts(lines, o, c);
    assert lines[..|lines|] == lines;
  }

  lemma Parts(lines: seq<string>, o: nat, c: nat)
    requires o < c <= |lines|
    ensures Concat(lines[o..c]) == lines[o] + Concat(lines[o + 1..c])
    ensures c < |lines| ==> Concat(lines[o..c + 1]) == lines[o] + Concat(lines[o + 1..c]) + lines[c]
  {
    ConcatSplit([lines[o]], lines[o + 1..c]);
    assert lines[o..c] == [lines[o]] + lines[o + 1..c];
    assert [lines[o]][..0] == [];
    if c < |lines| {
      assert lines[o..c + 1][..c - o] == lines[o..c];
    }
  }

  /** Two records stand one after the other, and only the last can be unclosed. */
  lemma RecordsApart(lines: seq<string>, o: nat, p: nat)
    requires o < p < |lines| && StartsRecord(lines, o) && StartsRecord(lines, p)
    ensures RecordAt(lines, o).closed
    ensures RecordAt(lines, o).sourceEnd <= RecordAt(lines, p).sourceStart
  {
    var c := FirstCloser(lines, o + 1, CANDIDATE);
    if p <= c {
      Inside(lines, o, p);
      assert false;
    }
    Slice(lines, c + 1, p);
  }

  /** The records are in the order of the text and disjoint, and only the last can be
      unclosed. */
  lemma {:induction false} RecordsOrdered(lines: seq<string>, n: nat, j: nat)
    requires n <= |lines| && j < |Records(lines, n)|
    ensures exists o :: 0 <= o < n && StartsRecord(lines, o) && Records(lines, n)[j] == RecordAt(lines, o)
    ensures j + 1 < |Records(lines, n)| ==>
              && Records(lines, n)[j].closed
              && Records(lines, n)[j].sourceEnd <= Records(lines, n)[j + 1].sourceStart
    decreases n
  {
    hide StartsRecord, RecordAt;
    var before := Records(lines, n - 1);
    if j >= |before| {
    } else {
      RecordsOrdered(lines, n - 1, j);
      if j + 1 == |before| && |Records(lines, n)| > |before| {
        var o :| 0 <= o < n - 1 && StartsRecord(lines, o) && before[j] == RecordAt(lines, o);
        RecordsApart(lines, o, n - 1);
      }
    }
  }
}
