/** What the lines of a changelog are to the migration fence scan, told from their characters,
    and the records it finds, told line by line. */
module MigrationFenceLines {
  import opened Json
  import opened MigrationFences

  // ---------- the shapes of lines ----------

  predicate AllSpaces(s: string) {
    forall k :: 0 <= k < |s| ==> IsPythonSpace(s[k])
  }

  predicate HeadingParts(line: string, hashes: string, gap: string, rest: string) {
    && hashes in {"##", "###"} && gap != "" && AllSpaces(gap) && AllSpaces(rest)
    && line == hashes + gap + "Migration" + rest
  }

  /** Two or three hashes, spaces, the word and nothing but spaces behind it. */
  ghost predicate MigrationHeadingShape(line: string) {
    exists hashes: string, gap: string, rest: string :: HeadingParts(line, hashes, gap, rest)
  }

  /** One to three hashes and a space. */
  ghost predicate SectionHeadingShape(line: string) {
    exists hashes: string, c: char, rest: string ::
      hashes in {"#", "##", "###"} && IsPythonSpace(c) && line == hashes + [c] + rest
  }

  /** The line starts with `n` of the character and no more. */
  predicate StartsWithRun(line: string, c: char, n: nat) {
    && n <= |line| && (forall k :: 0 <= k < n ==> line[k] == c)
    && (n < |line| ==> line[n] != c)
  }

  /** At least three back ticks or tildes. */
  predicate OpensShape(line: string, f: Fence) {
    f.marker in "`~" && f.width >= 3 && StartsWithRun(line, f.marker, f.width)
  }

  /** At least as many of the marker as the fence is wide, and nothing but spaces behind. */
  predicate ClosesShape(line: string, f: Fence) {
    exists n :: f.width <= n <= |line| && (forall k :: 0 <= k < n ==> line[k] == f.marker) && AllSpaces(line[n..])
  }

  /** Three back ticks and, spaces around them apart, the two words. */
  ghost predicate CandidateShape(line: string) {
    exists before: string, behind: string :: PartsOf(line, before, behind)
  }

  const WORDS := "bash migration"

  predicate PartsOf(line: string, before: string, behind: string) {
    AllSpaces(before) && AllSpaces(behind) && line == "```" + before + WORDS + behind
  }

  lemma RunExactly(line: string, c: char)
    ensures forall n: nat :: StartsWithRun(line, c, n) <==> n == RunLength(line, c)
  {
  }

  lemma OpensExactly(line: string, f: Fence)
    ensures Opens(line) == Some(f) <==> OpensShape(line, f)
  {
    RunExactly(line, '`');
    RunExactly(line, '~');
    assert StartsWithRun(line, '`', RunLength(line, '`')) && StartsWithRun(line, '~', RunLength(line, '~'));
  }

  lemma SpaceBehind(line: string, n: nat)
    requires n < |line| && AllSpaces(line[n..])
    ensures IsPythonSpace(line[n])
  {
    assert line[n..][0] == line[n];
  }

  lemma ClosesExactly(line: string, f: Fence)
    requires !IsPythonSpace(f.marker)
    ensures Closes(line, f) <==> ClosesShape(line, f)
  {
    var m := RunLength(line, f.marker);
    if n :| f.width <= n <= |line| && (forall k :: 0 <= k < n ==> line[k] == f.marker) && AllSpaces(line[n..]) {
      if n < m {
        SpaceBehind(line, n);
      }
    }
  }

  lemma {:induction false} LstripExactly(s: string)
    ensures var t := Lstrip(s);
            && |t| <= |s| && s[|s| - |t|..] == t && AllSpaces(s[..|s| - |t|]) && (t != "" ==> !IsPythonSpace(t[0]))
  {
    hide IsPythonSpace;
    if s == "" || !IsPythonSpace(s[0]) {
    } else {
      LstripExactly(s[1..]);
      var t := Lstrip(s);
      assert s[..|s| - |t|] == [s[0]] + s[1..][..|s| - 1 - |t|];
    }
  }

  lemma {:induction false} RstripExactly(s: string)
    ensures var t := Rstrip(s);
            && |t| <= |s| && s[..|t|] == t && AllSpaces(s[|t|..]) && (t != "" ==> !IsPythonSpace(t[|t| - 1]))
  {
    hide IsPythonSpace;
    if s == "" || !IsPythonSpace(s[|s| - 1]) {
    } else {
      RstripExactly(s[..|s| - 1]);
      var t := Rstrip(s);
      assert s[|t|..] == s[..|s| - 1][|t|..] + [s[|s| - 1]];
    }
  }

  lemma {:induction false} LstripPadded(before: string, word: string)
    requires AllSpaces(before) && word != "" && !IsPythonSpace(word[0])
    ensures Lstrip(before + word) == word
  {
    hide IsPythonSpace;
    if before == "" {
      assert before + word == word;
    } else {
      LstripPadded(before[1..], word);
      assert (before + word)[1..] == before[1..] + word;
    }
  }

  lemma {:induction false} RstripPadded(word: string, behind: string)
    requires AllSpaces(behind) && word != "" && !IsPythonSpace(word[|word| - 1])
    ensures Rstrip(word + behind) == word
  {
    hide IsPythonSpace;
    if behind == "" {
      assert word + behind == word;
    } else {
      var n := |behind| - 1;
      RstripPadded(word, behind[..n]);
      assert (word + behind)[..|word + behind| - 1] == word + behind[..n];
    }
  }

  lemma CandidateExactly(line: string)
    ensures IsCandidate(line) <==> CandidateShape(line)
  {
    hide IsCandidate, AllSpaces;
    if IsCandidate(line) {
      var before, behind := CandidateParts(line);
    }
    if before: string, behind: string :| PartsOf(line, before, behind) {
      PartsOfCandidate(line, before, behind);
    }
  }

  lemma CandidateParts(line: string) returns (before: string, behind: string)
    requires IsCandidate(line)
    ensures PartsOf(line, before, behind)
  {
    hide IsPythonSpace, AllSpaces, Lstrip, Rstrip, Opens;
    OpensExactly(line, Fence('`', 3));
    var rest := line[3..];
    var t := Lstrip(rest);
    LstripExactly(rest);
    RstripExactly(t);
    before, behind := rest[..|rest| - |t|], t[|WORDS|..];
    assert t == WORDS + behind;
    assert rest == before + (WORDS + behind);
    assert line[..3] == "```" && line == line[..3] + rest;
    assert line == "```" + before + WORDS + behind;
  }

  lemma PartsOfCandidate(line: string, before: string, behind: string)
    requires PartsOf(line, before, behind)
    ensures IsCandidate(line)
  {
    hide IsPythonSpace, AllSpaces, Lstrip, Rstrip, Opens;
    Letters();
    assert line[3..] == before + (WORDS + behind);
    LstripPadded(before, WORDS + behind);
    RstripPadded(WORDS, behind);
    NotATick(before, WORDS + behind);
    assert StartsWithRun(line, '`', 3);
    OpensExactly(line, Fence('`', 3));
  }

  lemma NotATick(before: string, words: string)
    requires AllSpaces(before) && words != "" && words[0] != '`'
    ensures (before + words)[0] != '`'
  {
  }

  lemma Letters()
    ensures !IsPythonSpace('b') && !IsPythonSpace('n') && !IsPythonSpace('M') && !IsPythonSpace('#')
  {
  }

  lemma Hashes(line: string)
    ensures var n := RunLength(line, '#'); 1 <= n <= 3 ==> line[..n] == (if n == 1 then "#" else if n == 2 then "##" else "###")
  {
  }

  lemma SectionExactly(line: string)
    ensures IsSectionHeading(line) <==> SectionHeadingShape(line)
  {
    var n := RunLength(line, '#');
    if IsSectionHeading(line) {
      var hashes, c, rest := line[..n], line[n], line[n + 1..];
      assert line == hashes + [c] + rest;
      Hashes(line);
    }
    if hashes: string, c: char, rest: string :| hashes in {"#", "##", "###"} && IsPythonSpace(c) && line == hashes + [c] + rest {
      assert StartsWithRun(line, '#', |hashes|) by {
        assert line[|hashes|] == c;
      }
      RunExactly(line, '#');
    }
  }

  lemma MigrationExactly(line: string)
    ensures IsMigrationHeading(line) <==> MigrationHeadingShape(line)
  {
    hide IsMigrationHeading, AllSpaces;
    if IsMigrationHeading(line) {
      var hashes, gap, rest := MigrationParts(line);
    }
    if hashes: string, gap: string, rest: string :| HeadingParts(line, hashes, gap, rest) {
      PartsOfMigration(line, hashes, gap, rest);
    }
  }

  lemma MigrationParts(line: string) returns (hashes: string, gap: string, rest: string)
    requires IsMigrationHeading(line)
    ensures HeadingParts(line, hashes, gap, rest)
  {
    hide IsPythonSpace, Lstrip, AllSpaces;
    Letters();
    var n := RunLength(line, '#');
    var tail := line[n..];
    var word := Lstrip(tail);
    LstripExactly(tail);
    hashes, gap, rest := line[..n], tail[..|tail| - |word|], word[|MIGRATION|..];
    assert word == "Migration" + rest && tail == gap + word;
    assert line == hashes + tail;
    assert line == hashes + gap + "Migration" + rest;
    Hashes(line);
    SameSpaces(rest);
    assert gap != "" by {
      assert tail[0] == line[n];
    }
  }

  lemma PartsOfMigration(line: string, hashes: string, gap: string, rest: string)
    requires HeadingParts(line, hashes, gap, rest)
    ensures IsMigrationHeading(line)
  {
    hide IsPythonSpace, Lstrip, AllSpaces;
    Letters();
    var k := |hashes|;
    assert line[k..] == gap + ("Migration" + rest);
    assert line[k] == gap[0];
    SameSpaces(gap);
    assert StartsWithRun(line, '#', k);
    RunExactly(line, '#');
    LstripPadded(gap, "Migration" + rest);
    assert ("Migration" + rest)[|MIGRATION|..] == rest;
    SameSpaces(rest);
  }

  lemma SameSpaces(s: string)
    ensures IsBlank(s) <==> AllSpaces(s)
    ensures AllSpaces(s) && s != "" ==> IsPythonSpace(s[0])
  {
  }

  // ---------- a line's place ----------

  /** Line `o` opens the fence that line `i` lies in or closes: it stands outside every fence,
      and no line between the two closes it. */
  predicate OpenAt(lines: seq<string>, o: nat, i: nat, f: Fence) {
    && o < i <= |lines| && FenceBefore(lines, o).None? && OpensShape(lines[o], f)
    && forall k :: o < k < i ==> !ClosesShape(lines[k], f)
  }

  lemma {:induction false} FencedExactly(lines: seq<string>, i: nat)
    requires i <= |lines|
    ensures forall f :: FenceBefore(lines, i) == Some(f) <==> exists o: nat :: OpenAt(lines, o, i, f)
  {
    hide Opens, Closes, OpensShape, ClosesShape;
    forall f
      ensures FenceBefore(lines, i) == Some(f) <==> exists o: nat :: OpenAt(lines, o, i, f)
    {
      if i > 0 {
        var n := i - 1;
        FencedExactly(lines, n);
        OpensExactly(lines[n], f);
        MarkersAreMarks(lines, n, f);
        if FenceBefore(lines, n).None? {
          assert OpenAt(lines, n, i, f) <==> OpensShape(lines[n], f);
          forall o: nat | OpenAt(lines, o, i, f)
            ensures o == n
          {
            if o < n {
              OpenEarlier(lines, o, n, f);
            }
          }
        } else {
          forall o: nat
            ensures OpenAt(lines, o, i, f) <==> OpenAt(lines, o, n, f) && !ClosesShape(lines[n], f)
          {
          }
        }
      }
    }
  }

  lemma OpenEarlier(lines: seq<string>, o: nat, n: nat, f: Fence)
    requires o < n && OpenAt(lines, o, n + 1, f)
    ensures OpenAt(lines, o, n, f)
  {
    hide FenceBefore;
  }

  lemma MarkersAreMarks(lines: seq<string>, i: nat, f: Fence)
    requires i < |lines|
    ensures FenceBefore(lines, i) == Some(f) ==> f.marker in "`~" && (Closes(lines[i], f) <==> ClosesShape(lines[i], f))
  {
    hide Opens, Closes, ClosesShape;
    if FenceBefore(lines, i) == Some(f) {
      FenceMarks(lines, i, f);
      ClosesExactly(lines[i], f);
    }
  }

  lemma {:induction false} FenceMarks(lines: seq<string>, i: nat, f: Fence)
    requires i <= |lines| && FenceBefore(lines, i) == Some(f)
    ensures f.marker in "`~" && !IsPythonSpace(f.marker)
    decreases i
  {
    hide Opens, Closes;
    if i == 0 {
    } else if FenceBefore(lines, i - 1).Some? {
      FenceMarks(lines, i - 1, f);
    } else {
      OpensExactly(lines[i - 1], f);
    }
  }

  /** A heading that decides the section: outside every fence. */
  ghost predicate HeadingAt(lines: seq<string>, k: nat)
    requires k < |lines|
  {
    FenceBefore(lines, k).None? && SectionHeadingShape(lines[k])
  }

  /** The last heading before line `i`, fenced text apart, is a migration heading. */
  ghost predicate UnderMigration(lines: seq<string>, i: nat)
    requires i <= |lines|
  {
    exists k: nat :: k < i && HeadingAt(lines, k) && MigrationHeadingShape(lines[k]) && forall j: nat :: k < j < i ==> !HeadingAt(lines, j)
  }

  lemma UnderExactly(lines: seq<string>, i: nat)
    requires i <= |lines|
    ensures InMigrationSection(lines, i) <==> UnderMigration(lines, i)
  {
    hide FenceBefore, IsSectionHeading, IsMigrationHeading, SectionHeadingShape, MigrationHeadingShape;
    forall line
      ensures IsSectionHeading(line) <==> SectionHeadingShape(line)
      ensures IsMigrationHeading(line) <==> MigrationHeadingShape(line)
    {
      SectionExactly(line);
      MigrationExactly(line);
    }
    var last := LastDeciding(lines, i);
    assert forall k: nat :: k < i ==> (IsDeciding(lines, k) <==> HeadingAt(lines, k));
    if last >= 0 {
      assert HeadingAt(lines, last);
    }
  }

  // ---------- records ----------

  ghost predicate Starts(lines: seq<string>, o: nat)
    requires o < |lines|
  {
    FenceBefore(lines, o).None? && CandidateShape(lines[o])
  }

  /** Line `c` is the first behind line `o` that closes a candidate. */
  predicate EndsWith(lines: seq<string>, o: nat, c: nat) {
    && o < c < |lines| && ClosesShape(lines[c], CANDIDATE)
    && forall k :: o < k < c ==> !ClosesShape(lines[k], CANDIDATE)
  }

  predicate NeverEnds(lines: seq<string>, o: nat) {
    forall k :: o < k < |lines| ==> !ClosesShape(lines[k], CANDIDATE)
  }

  /** A record of the fence that line `o` opens: from there to the line that closes it, or to
      the end of the text. */
  ghost predicate IsRecord(lines: seq<string>, o: nat, r: MigrationFence)
    requires o < |lines|
  {
    && r.sourceStart == |Concat(lines[..o])|
    && (r.inMigrationSection <==> UnderMigration(lines, o))
    && if NeverEnds(lines, o) then !r.closed && r.script == Concat(lines[o + 1..]) && r.sourceEnd == |Concat(lines)|
       else exists c: nat :: EndsWith(lines, o, c) && r.closed && r.script == Concat(lines[o + 1..c]) && r.sourceEnd == |Concat(lines[..c + 1])|
  }

  lemma RecordExactly(lines: seq<string>, o: nat)
    requires o < |lines|
    ensures IsRecord(lines, o, RecordAt(lines, o))
  {
    hide Closes, ClosesShape, InMigrationSection, UnderMigration, Concat;
    UnderExactly(lines, o);
    forall line
      ensures Closes(line, CANDIDATE) <==> ClosesShape(line, CANDIDATE)
    {
      ClosesExactly(line, CANDIDATE);
    }
    var c := FirstCloser(lines, o + 1, CANDIDATE);
    if c < |lines| {
      assert EndsWith(lines, o, c);
    } else {
      assert lines[o + 1..c] == lines[o + 1..] && lines[..c] == lines;
    }
  }

  /** The records are, one for one and in order, those of the lines that start one. */
  ghost predicate AreRecords(lines: seq<string>, n: nat, rs: seq<MigrationFence>, at: seq<nat>)
    requires n <= |lines|
  {
    && |rs| == |at|
    && (forall k :: 0 <= k < |at| ==> at[k] < n && Starts(lines, at[k]) && IsRecord(lines, at[k], rs[k]))
    && (forall j, k :: 0 <= j < k < |at| ==> at[j] < at[k])
    && (forall o: nat :: o < n && Starts(lines, o) ==> o in at)
  }

  /** What the scan finds: every fence that a line outside all fences opens with the two words,
      and nothing else. */
  lemma {:induction false} RecordsExactly(lines: seq<string>, n: nat) returns (at: seq<nat>)
    requires n <= |lines|
    ensures AreRecords(lines, n, Records(lines, n), at)
  {
    hide FenceBefore, IsCandidate, CandidateShape, IsRecord, RecordAt, AreRecords;
    if n == 0 {
      at := [];
      NoRecords(lines);
    } else {
      var before := RecordsExactly(lines, n - 1);
      CandidateExactly(lines[n - 1]);
      RecordExactly(lines, n - 1);
      NextRecord(lines, n - 1, Records(lines, n - 1), before, RecordAt(lines, n - 1));
      at := if StartsRecord(lines, n - 1) then before + [n - 1] else before;
      assert Records(lines, n - 1) + [] == Records(lines, n - 1);
    }
  }

  lemma NoRecords(lines: seq<string>)
    ensures AreRecords(lines, 0, [], [])
  {
  }

  lemma NextRecord(lines: seq<string>, n: nat, rs: seq<MigrationFence>, at: seq<nat>, r: MigrationFence)
    requires n < |lines| && AreRecords(lines, n, rs, at) && IsRecord(lines, n, r)
    ensures Starts(lines, n) ==> AreRecords(lines, n + 1, rs + [r], at + [n])
    ensures !Starts(lines, n) ==> AreRecords(lines, n + 1, rs, at)
  {
    hide Starts, IsRecord;
    if Starts(lines, n) {
      var places := at + [n];
      assert places[|at|] == n;
      forall o: nat | o < n + 1 && Starts(lines, o)
        ensures o in places
      {
        assert o < n ==> o in at;
      }
    }
  }

  predicate IsRunnable(r: MigrationFence) {
    r.closed && r.inMigrationSection
  }

  /** The runnable fences are the closed ones under a migration heading, in order. */
  lemma {:induction false} RunnableExactly(found: seq<MigrationFence>) returns (at: seq<nat>)
    ensures PicksAt(found, Runnable(found), IsRunnable, at)
  {
    hide PicksAt;
    if found == [] {
      at := [];
      NothingFound();
    } else {
      var n := |found| - 1;
      var before := RunnableExactly(found[..n]);
      assert found == found[..n] + [found[n]];
      PickOneMore(found[..n], Runnable(found[..n]), IsRunnable, before, found[n]);
      at := if IsRunnable(found[n]) then before + [n] else before;
      assert Runnable(found[..n]) + [] == Runnable(found[..n]);
    }
  }

  lemma NothingFound()
    ensures PicksAt([], [], IsRunnable, [])
  {
  }

  // ---------- the lines ----------

  predicate NoBreakIn(s: string) {
    forall k :: 0 <= k < |s| ==> !IsLineBreak(s[k])
  }

  /** A line: characters that end no line, then one line break, or none on the last line. */
  predicate IsLineOf(line: string, last: bool) {
    exists n :: 0 <= n <= |line| && NoBreakIn(line[..n])
      && (|| (n < |line| && (line[n..] == "\r\n" || (|line| == n + 1 && IsLineBreak(line[n]))))
          || (last && n == |line| > 0))
  }

  lemma {:induction false} FirstLineIs(text: string, i: nat)
    requires i < |text| && NoBreakIn(text[..i])
    ensures IsLineOf(text[..LineEnd(text, i)], LineEnd(text, i) == |text|)
    ensures var end := LineEnd(text, i); end < |text| && text[end - 1] == '\r' ==> text[end] != '\n'
    decreases |text| - i
  {
    hide IsLineBreak;
    Breaks();
    var end := LineEnd(text, i);
    if text[i] == '\r' && i + 1 < |text| && text[i + 1] == '\n' {
      assert text[..end][..i] == text[..i] && text[..end][i..] == "\r\n";
    } else if IsLineBreak(text[i]) {
      assert text[..end][..i] == text[..i] && text[..end][i] == text[i];
    } else {
      assert text[..i + 1] == text[..i] + [text[i]];
      if i + 1 < |text| {
        FirstLineIs(text, i + 1);
      } else {
        assert text[..end][..i + 1] == text[..i + 1];
      }
    }
  }

  lemma Breaks()
    ensures IsLineBreak('\r') && IsLineBreak('\n')
  {
  }

  /** Where the text is cut: behind every line break and nowhere else, a carriage return and a
      line feed behind it being one. */
  lemma {:induction false} LinesExactly(text: string)
    ensures var lines := MigrationFences.SplitLines(text);
            && Concat(lines) == text
            && (forall k :: 0 <= k < |lines| ==> lines[k] != "" && IsLineOf(lines[k], k == |lines| - 1))
            && (forall k :: 0 <= k < |lines| - 1 && lines[k][|lines[k]| - 1] == '\r' ==> lines[k + 1][0] != '\n')
  {
    hide IsLineOf, LineEnd, NoBreakIn;
    SplitConcat(text);
    if text == "" {
    } else {
      var end := LineEnd(text, 0);
      NothingBroken();
      assert text[..0] == "";
      FirstLineIs(text, 0);
      LinesExactly(text[end..]);
      var lines, rest := MigrationFences.SplitLines(text), MigrationFences.SplitLines(text[end..]);
      assert lines == [text[..end]] + rest;
      if rest != [] {
        FirstOf(text[end..]);
        assert text[..end][end - 1] == text[end - 1];
      }
    }
  }

  lemma NothingBroken()
    ensures NoBreakIn("")
  {
  }

  lemma FirstOf(text: string)
    requires MigrationFences.SplitLines(text) != []
    ensures text != "" && MigrationFences.SplitLines(text)[0] != "" && MigrationFences.SplitLines(text)[0][0] == text[0]
  {
  }
}
