/** Which lines the findings of the interpreter-source checker name, and which lines its queue
    of heredocs carries. */
module FindingLines {
  import opened Json
  import opened ShellText
  import opened ShellWords
  import opened ShellCommands
  import opened ShellPlaces
  import opened ShellLines
  import opened InterpreterCheck

  // ---------- the scan of one logical line ----------

  /** The scan of a logical line with positions in the joined text for lines. */
  function OffsetsAt(lines: seq<string>, start: nat): CommandScan
    requires start < |lines|
  {
    Scan(Concat(Pieces(lines, start, LastJoined(lines, start))))
  }

  /** Every word and heredoc of a logical line is reported at the physical line that holds the
      character at its label. */
  lemma ScanAtReported(lines: seq<string>, start: nat)
    requires start < |lines|
    ensures ReportedBy(lines, start, LastJoined(lines, start), ScanAt(lines, start), OffsetsAt(lines, start))
    ensures Spread(ScanLabelsOf(OffsetsAt(lines, start)), 0, |Concat(Pieces(lines, start, LastJoined(lines, start)))|)
  {
    hide Continues, Pieces, Concat, Scan, LineAt, ReportedBy, Spread, ScanLabelsOf;
    var last := LastJoined(lines, start);
    var pieces := Pieces(lines, start, last);
    assert Recorded(pieces, StartsOf(pieces));
    ScanReported(lines, start, last, StartsOf(pieces));
  }

  predicate WordsWithin(words: seq<Word>, max: nat) {
    forall i :: 0 <= i < |words| ==> 1 <= words[i].line <= max
  }

  lemma OnLineWithin(lines: seq<string>, start: nat, last: nat, offset: nat, n: nat)
    requires Joins(lines, start, last) && OnLine(lines, start, last, offset, n)
    ensures 1 <= n <= |lines|
  {
    hide Continues, Concat;
  }

  lemma ScanWithin(lines: seq<string>, start: nat)
    requires start < |lines|
    ensures forall i :: 0 <= i < |ScanAt(lines, start).commands| ==> WordsWithin(ScanAt(lines, start).commands[i], |lines|)
  {
    hide ScanAt, Continues, OffsetsAt, OnLine, WordAtLabel, Joins, Pieces, Concat, Spread;
    ScanAtReported(lines, start);
    var last, scan, offsets := LastJoined(lines, start), ScanAt(lines, start), OffsetsAt(lines, start);
    forall i: nat, j: nat | i < |scan.commands| && j < |scan.commands[i]|
      ensures 1 <= scan.commands[i][j].line <= |lines|
    {
      assert WordReported(lines, start, last, scan.commands[i][j], offsets.commands[i][j].line);
      OnLineWithin(lines, start, last, offsets.commands[i][j].line, scan.commands[i][j].line);
    }
  }

  lemma {:induction false} NoBreaks(text: string)
    requires '\n' !in text
    ensures SplitLines(text) == [text]
  {
    if text == "" {
    } else {
      NoBreaks(text[1..]);
      assert text == [text[0]] + text[1..];
    }
  }

  lemma {:induction false} NoBreakInLines(text: string)
    ensures forall i :: 0 <= i < |SplitLines(text)| ==> '\n' !in SplitLines(text)[i]
  {
    if text == "" {
    } else if text[0] == '\n' {
      NoBreakInLines(text[1..]);
    } else if text[0] == '\r' && |text| > 1 && text[1] == '\n' {
      NoBreakInLines(text[2..]);
    } else {
      NoBreakInLines(text[1..]);
    }
  }

  predicate PlainLines(lines: seq<string>) {
    lines != [] && forall i :: 0 <= i < |lines| ==> '\n' !in lines[i]
  }

  // ---------- findings beyond a line ----------

  predicate LinesWithin(fs: seq<Finding>, max: nat) {
    forall i :: 0 <= i < |fs| ==> 1 <= fs[i].line <= max
  }

  predicate Beyond(fs: seq<Finding>, max: nat) {
    exists i :: 0 <= i < |fs| && fs[i].line > max
  }

  lemma BeyondAppend(fs: seq<Finding>, gs: seq<Finding>, max: nat)
    ensures Beyond(fs + gs, max) <==> Beyond(fs, max) || Beyond(gs, max)
  {
    if Beyond(fs, max) {
      var i :| 0 <= i < |fs| && fs[i].line > max;
      assert (fs + gs)[i] == fs[i];
    }
    if Beyond(gs, max) {
      var i :| 0 <= i < |gs| && gs[i].line > max;
      assert (fs + gs)[|fs| + i] == gs[i];
    }
  }

  lemma BeyondOne(f: Finding, max: nat)
    ensures Beyond([f], max) <==> f.line > max
  {
    assert [f][0] == f;
  }

  lemma Reported(st: Check, line: nat, kind: Kind, max: nat)
    ensures Beyond(Report(st, line, kind).findings, max) <==> Beyond(st.findings, max) || line > max
    ensures LinesWithin(Report(st, line, kind).findings, max) <==> LinesWithin(st.findings, max) && 1 <= line <= max
  {
    var fs := st.findings;
    BeyondAppend(fs, [Finding(line, kind)], max);
    BeyondOne(Finding(line, kind), max);
    assert Report(st, line, kind).findings[|fs|] == Finding(line, kind);
    assert forall i :: 0 <= i < |fs| ==> Report(st, line, kind).findings[i] == fs[i];
  }

  // ---------- a text of one line ----------

  /** An interpreter command whose source is missing, empty or not closed on its line. */
  predicate Incomplete(words: seq<Word>) {
    !SourceOf(words).NoSource? && !IsComplete(SourceOf(words))
  }

  predicate SomeIncomplete(commands: seq<seq<Word>>) {
    exists j :: 0 <= j < |commands| && Incomplete(commands[j])
  }

  predicate TwoIncomplete(commands: seq<seq<Word>>) {
    exists j, k :: 0 <= j < k < |commands| && Incomplete(commands[j]) && Incomplete(commands[k])
  }

  lemma IncompleteNext(commands: seq<seq<Word>>, words: seq<Word>)
    ensures SomeIncomplete(commands + [words]) <==> SomeIncomplete(commands) || Incomplete(words)
    ensures TwoIncomplete(commands + [words]) <==> TwoIncomplete(commands) || (SomeIncomplete(commands) && Incomplete(words))
  {
    hide Incomplete;
    var more, n := commands + [words], |commands|;
    assert more[n] == words && forall i :: 0 <= i < n ==> more[i] == commands[i];
    if SomeIncomplete(commands) {
      var j :| 0 <= j < n && Incomplete(commands[j]);
      assert Incomplete(more[j]);
      assert Incomplete(words) ==> Incomplete(more[n]);
    }
    if TwoIncomplete(commands) {
      var j, k :| 0 <= j < k < n && Incomplete(commands[j]) && Incomplete(commands[k]);
      assert Incomplete(more[j]) && Incomplete(more[k]);
    }
  }

  lemma SourceWithin(words: seq<Word>, max: nat)
    requires WordsWithin(words, max)
    ensures SourceOf(words).Given? ==> 1 <= SourceOf(words).word.line <= max
  {
  }

  /** On the only line of a text no source spans lines, and the checker stands on the line or,
      once a source has run over a closing backslash, behind it. */
  lemma OneLineStep(line: string, st: Check, words: seq<Word>, limit: nat)
    requires |line| <= limit && st.index <= 1 && WordsWithin(words, 1)
    ensures var r := Judge([line], st, words, limit);
            && r.pending == st.pending
            && r.index == (if Incomplete(words) && EndsInBackslash(line) then 1 else st.index)
            && (Beyond(r.findings, 1) <==> Beyond(st.findings, 1) || (Incomplete(words) && st.index == 1))
            && (LinesWithin(st.findings, 2) ==> LinesWithin(r.findings, 2))
  {
    hide SourceOf, EndsInBackslash, SpanExpands, SomeExpands, Expands, Beyond, LinesWithin, Report;
    var lines, s, r := [line], SourceOf(words), Judge([line], st, words, limit);
    ReportKeeps(st);
    if Incomplete(words) {
      assert r == JudgeIncomplete(lines, st, s, limit);
      assert LastContinued(lines, 1) == 1;
      ReportedIn(st, st.index + 1, 1);
      ReportedIn(st, st.index + 1, 2);
    } else if s.Given? && s.word.expandable != [] {
      SourceWithin(words, 1);
      ReportedIn(st, s.word.line, 1);
      ReportedIn(st, s.word.line, 2);
    }
  }

  lemma ReportKeeps(st: Check)
    ensures forall n, kind :: Report(st, n, kind).index == st.index && Report(st, n, kind).pending == st.pending
  {
  }

  lemma ReportedIn(st: Check, line: nat, max: nat)
    requires 1 <= line
    ensures forall kind :: Beyond(Report(st, line, kind).findings, max) <==> Beyond(st.findings, max) || line > max
    ensures forall kind :: LinesWithin(Report(st, line, kind).findings, max) <==> LinesWithin(st.findings, max) && line <= max
  {
    forall kind
      ensures Beyond(Report(st, line, kind).findings, max) <==> Beyond(st.findings, max) || line > max
      ensures LinesWithin(Report(st, line, kind).findings, max) <==> LinesWithin(st.findings, max) && line <= max
    {
      Reported(st, line, kind, max);
    }
  }

  lemma {:induction false} OneLineQueue(line: string, st: Check, commands: seq<seq<Word>>, limit: nat)
    requires |line| <= limit
    ensures JudgeAll([line], st, commands, limit).pending == st.pending
  {
    hide Judge;
    if commands == [] {
    } else {
      var init := commands[..|commands| - 1];
      OneLineQueue(line, st, init, limit);
      OneLineKeepsQueue(line, JudgeAll([line], st, init, limit), commands[|commands| - 1], limit);
    }
  }

  lemma OneLineKeepsQueue(line: string, st: Check, words: seq<Word>, limit: nat)
    requires |line| <= limit
    ensures Judge([line], st, words, limit).pending == st.pending
  {
    hide SourceOf, EndsInBackslash, SpanExpands, SomeExpands, Expands;
  }

  lemma {:induction false} OneLineJudged(line: string, inherited: seq<Heredoc>, commands: seq<seq<Word>>, limit: nat)
    requires |line| <= limit && forall i :: 0 <= i < |commands| ==> WordsWithin(commands[i], 1)
    ensures var r := JudgeAll([line], Check(0, inherited, []), commands, limit);
            && r.pending == inherited
            && r.index == (if SomeIncomplete(commands) && EndsInBackslash(line) then 1 else 0)
            && (Beyond(r.findings, 1) <==> TwoIncomplete(commands) && EndsInBackslash(line))
            && LinesWithin(r.findings, 2)
  {
    hide Judge, Incomplete, EndsInBackslash, WordsWithin, Beyond, SomeIncomplete, TwoIncomplete;
    if commands == [] {
      NothingBeyond(1);
    } else {
      var init, last := commands[..|commands| - 1], commands[|commands| - 1];
      OneLineJudged(line, inherited, init, limit);
      OneLineStep(line, JudgeAll([line], Check(0, inherited, []), init, limit), last, limit);
      assert commands == init + [last];
      IncompleteNext(init, last);
    }
  }

  lemma NothingBeyond(max: nat)
    ensures !Beyond([], max) && !SomeIncomplete([]) && !TwoIncomplete([])
  {
  }

  /** A text of one line whose second incomplete source is reported behind it. */
  predicate OneLineOverruns(text: string) {
    EndsInBackslash(text) && TwoIncomplete(ScanAt([text], 0).commands)
  }

  /** The shape of every closing-quote suffix: of a text of one line, a finding is at line two
      exactly when the text ends in a backslash, at least two of its commands have an
      incomplete source, and no heredoc body is being read; none is further on. */
  lemma OneLineExactly(text: string, inherited: seq<Heredoc>)
    requires '\n' !in text
    ensures var (fs, pending) := CheckText(text, inherited, false);
            && LinesWithin(fs, 2)
            && (Beyond(fs, 1) <==> inherited == [] && OneLineOverruns(text))
            && pending == if inherited == [] then ScanAt([text], 0).heredocs
                          else BodyLine([text], Check(0, inherited, [])).pending
  {
    hide Judge, JudgeAll, ScanAt, EndsInBackslash, Beyond, LinesWithin, StripTabs, Expands, TwoIncomplete;
    NoBreaks(text);
    var lines, st := [text], Check(0, inherited, []);
    var r := Round(lines, st, |text|);
    assert CheckFrom(lines, r, |text|) == r;
    assert r.findings + [] == r.findings;
    NothingBeyond(1);
    NothingWithin(2);
    if inherited == [] {
      ScanWithin(lines, 0);
      OneLineJudged(text, inherited, ScanAt(lines, 0).commands, |text|);
      assert inherited + ScanAt(lines, 0).heredocs == ScanAt(lines, 0).heredocs;
    } else {
      Reported(st, 1, HeredocSource, 1);
      Reported(st, 1, HeredocSource, 2);
    }
  }

  lemma NothingWithin(max: nat)
    ensures LinesWithin([], max)
  {
  }

  // ---------- one command of a round ----------

  function SuffixOf(line: string, quote: Quote): string
    requires QuoteClose(line, quote) >= 0
  {
    line[QuoteClose(line, quote) + 1..]
  }

  /** A source whose quote is open at the end of its line and closed on a later one. */
  predicate Spans(lines: seq<string>, st: Check, s: Source) {
    && s.Given? && s.word.openQuote != NoQuote && st.index + 1 <= |lines|
    && ClosingLine(lines, st.index + 1, s.word.openQuote) < |lines|
  }

  /** A source that runs over closing backslashes to the end of the text. */
  predicate RunsOut(lines: seq<string>, st: Check, s: Source) {
    !Spans(lines, st, s) && st.index < |lines| && forall k :: st.index <= k < |lines| ==> EndsInBackslash(lines[k])
  }

  /** A source that closes on the last line, before a suffix that overruns. */
  predicate SpanOverruns(lines: seq<string>, st: Check, s: Source) {
    && Spans(lines, st, s) && st.pending == []
    && var c := ClosingLine(lines, st.index + 1, s.word.openQuote);
       c + 1 == |lines| && OneLineOverruns(SuffixOf(lines[c], s.word.openQuote))
  }

  lemma {:induction false} RunsToEnd(lines: seq<string>, from: nat)
    requires from <= |lines|
    ensures LastContinued(lines, from) == |lines| <==> forall k :: from <= k < |lines| ==> EndsInBackslash(lines[k])
    decreases |lines| - from
  {
    hide EndsInBackslash;
    if from == |lines| {
    } else {
      RunsToEnd(lines, from + 1);
    }
  }

  lemma ShiftedBeyond(fs: seq<Finding>, c: nat, max: nat)
    requires LinesWithin(fs, 2) && c < max
    ensures Beyond(Shifted(fs, c), max) <==> c + 1 == max && Beyond(fs, 1)
    ensures LinesWithin(Shifted(fs, c), max + 1)
  {
    if Beyond(fs, 1) {
      var i :| 0 <= i < |fs| && fs[i].line > 1;
      assert Shifted(fs, c)[i].line == c + 2;
    }
    if Beyond(Shifted(fs, c), max) {
      var i :| 0 <= i < |fs| && Shifted(fs, c)[i].line > max;
      assert fs[i].line > 1;
    }
  }

  lemma WithinAppend(fs: seq<Finding>, gs: seq<Finding>, max: nat)
    ensures LinesWithin(fs + gs, max) <==> LinesWithin(fs, max) && LinesWithin(gs, max)
  {
    assert forall i :: 0 <= i < |fs| ==> (fs + gs)[i] == fs[i];
    assert forall i :: 0 <= i < |gs| ==> (fs + gs)[|fs| + i] == gs[i];
  }

  /** What a source that spans lines leaves: the checker stands on its closing line, the
      suffix is checked as a text of one line, and the heredocs of the suffix are queued. */
  lemma SpanStep(lines: seq<string>, st: Check, s: Source, limit: nat)
    requires WithinLimit(lines, limit) && PlainLines(lines)
    requires Spans(lines, st, s) && 1 <= s.word.line <= |lines|
    ensures var r, c := JudgeIncomplete(lines, st, s, limit), ClosingLine(lines, st.index + 1, s.word.openQuote);
            var suffix := SuffixOf(lines[c], s.word.openQuote);
            && 1 <= c < |lines| && r.index == c
            && r.pending == (if st.pending == [] then ScanAt([suffix], 0).heredocs
                             else BodyLine([suffix], Check(0, st.pending, [])).pending)
            && (Beyond(r.findings, |lines|) <==> Beyond(st.findings, |lines|) || SpanOverruns(lines, st, s))
            && (LinesWithin(st.findings, |lines| + 1) ==> LinesWithin(r.findings, |lines| + 1))
  {
    hide EndsInBackslash, SpanExpands, SomeExpands, Expands, QuoteClose, ScanAt, BodyLine, CheckText, OneLineOverruns, Beyond, LinesWithin, Report;
    var c, max := ClosingLine(lines, st.index + 1, s.word.openQuote), |lines|;
    var suffix := SuffixOf(lines[c], s.word.openQuote);
    var st1 := if SpanExpands(lines, s.word, st.index + 1, c) then Report(st, s.word.line, CommandSource) else st;
    var (found, pending) := CheckText(suffix, st.pending, false);
    SuffixUnbroken(lines[c], s.word.openQuote);
    OneLineExactly(suffix, st.pending);
    ShiftedBeyond(found, c, max);
    Reported(st, s.word.line, CommandSource, max);
    Reported(st, s.word.line, CommandSource, max + 1);
    BeyondAppend(st1.findings, Shifted(found, c), max);
    WithinAppend(st1.findings, Shifted(found, c), max + 1);
    assert JudgeIncomplete(lines, st, s, limit) == Check(c, pending, st1.findings + Shifted(found, c));
  }

  lemma SuffixUnbroken(line: string, quote: Quote)
    requires QuoteClose(line, quote) >= 0 && '\n' !in line
    ensures '\n' !in SuffixOf(line, quote)
  {
    hide QuoteClose;
  }

  /** What any other incomplete source leaves. */
  lemma LineStep(lines: seq<string>, st: Check, s: Source, limit: nat)
    requires WithinLimit(lines, limit) && (s.Missing? || s.Given?)
    requires !Spans(lines, st, s) && st.index <= |lines|
    ensures var r := JudgeIncomplete(lines, st, s, limit);
            && r.index <= |lines| && r.pending == st.pending
            && (r.index == |lines| <==> st.index == |lines| || RunsOut(lines, st, s))
            && (Beyond(r.findings, |lines|) <==> Beyond(st.findings, |lines|) || st.index == |lines|)
            && (LinesWithin(st.findings, |lines| + 1) ==> LinesWithin(r.findings, |lines| + 1))
  {
    hide EndsInBackslash, SomeExpands, Expands, ClosingLine, LastContinued, Beyond, LinesWithin, Report;
    ReportKeeps(st);
    ReportedIn(st, st.index + 1, |lines|);
    ReportedIn(st, st.index + 1, |lines| + 1);
    if st.index < |lines| {
      RunsToEnd(lines, st.index + 1);
    }
  }

  // ---------- the commands of a round ----------

  function StateAt(lines: seq<string>, st: Check, commands: seq<seq<Word>>, n: nat, limit: nat): Check
    requires WithinLimit(lines, limit) && n <= |commands|
  {
    JudgeAll(lines, st, commands[..n], limit)
  }

  predicate RunsOutAt(lines: seq<string>, st: Check, commands: seq<seq<Word>>, j: int, limit: nat)
    requires WithinLimit(lines, limit)
  {
    && 0 <= j < |commands| && Incomplete(commands[j])
    && RunsOut(lines, StateAt(lines, st, commands, j, limit), SourceOf(commands[j]))
  }

  predicate SpanOverrunsAt(lines: seq<string>, st: Check, commands: seq<seq<Word>>, j: int, limit: nat)
    requires WithinLimit(lines, limit)
  {
    && 0 <= j < |commands| && Incomplete(commands[j])
    && SpanOverruns(lines, StateAt(lines, st, commands, j, limit), SourceOf(commands[j]))
  }

  predicate FollowsRunOut(lines: seq<string>, st: Check, commands: seq<seq<Word>>, j: int, k: int, limit: nat)
    requires WithinLimit(lines, limit)
  {
    0 <= j < k < |commands| && RunsOutAt(lines, st, commands, j, limit) && Incomplete(commands[k])
  }

  /** Among the first `n` commands of a round, an incomplete source follows one that ran out
      of the text, or the suffix behind a source that closes on the last line overruns. */
  ghost predicate OverrunsBy(lines: seq<string>, st: Check, commands: seq<seq<Word>>, n: nat, limit: nat)
    requires WithinLimit(lines, limit)
  {
    || (exists j, k :: k < n && FollowsRunOut(lines, st, commands, j, k, limit))
    || (exists j :: j < n && SpanOverrunsAt(lines, st, commands, j, limit))
  }

  lemma CommandStep(lines: seq<string>, st: Check, words: seq<Word>, limit: nat)
    requires WithinLimit(lines, limit) && PlainLines(lines) && WordsWithin(words, |lines|) && st.index <= |lines|
    ensures var r, s := Judge(lines, st, words, limit), SourceOf(words);
            && r.index <= |lines|
            && (r.index == |lines| <==> st.index == |lines| || (Incomplete(words) && RunsOut(lines, st, s)))
            && (Beyond(r.findings, |lines|) <==>
                || Beyond(st.findings, |lines|)
                || (Incomplete(words) && (st.index == |lines| || SpanOverruns(lines, st, s))))
            && (LinesWithin(st.findings, |lines| + 1) ==> LinesWithin(r.findings, |lines| + 1))
  {
    hide SourceOf, RunsOut, SpanOverruns, JudgeIncomplete, Beyond, LinesWithin, Report, WordsWithin, ClosingLine;
    var s := SourceOf(words);
    SourceWithin(words, |lines|);
    ReportKeeps(st);
    if Incomplete(words) {
      assert Judge(lines, st, words, limit) == JudgeIncomplete(lines, st, s, limit);
      OnlySpansOverrun(lines, st, s);
      if Spans(lines, st, s) {
        SpanStep(lines, st, s, limit);
      } else {
        LineStep(lines, st, s, limit);
      }
    } else if s.Given? && s.word.expandable != [] {
      Reported(st, s.word.line, CommandSource, |lines|);
      Reported(st, s.word.line, CommandSource, |lines| + 1);
    }
  }

  lemma OnlySpansOverrun(lines: seq<string>, st: Check, s: Source)
    ensures SpanOverruns(lines, st, s) ==> Spans(lines, st, s)
    ensures RunsOut(lines, st, s) ==> !Spans(lines, st, s)
    ensures Spans(lines, st, s) ==> st.index < |lines|
  {
  }

  lemma {:induction false} RoundJudged(lines: seq<string>, st: Check, commands: seq<seq<Word>>, n: nat, limit: nat)
    requires WithinLimit(lines, limit) && PlainLines(lines) && st.index < |lines| && n <= |commands|
    requires forall i :: 0 <= i < |commands| ==> WordsWithin(commands[i], |lines|)
    ensures var r := StateAt(lines, st, commands, n, limit);
            && r.index <= |lines|
            && (r.index == |lines| <==> exists j :: j < n && RunsOutAt(lines, st, commands, j, limit))
            && (Beyond(r.findings, |lines|) <==> Beyond(st.findings, |lines|) || OverrunsBy(lines, st, commands, n, limit))
            && (LinesWithin(st.findings, |lines| + 1) ==> LinesWithin(r.findings, |lines| + 1))
  {
    hide Judge, Incomplete, Beyond, LinesWithin, WordsWithin, RunsOut, SpanOverruns, SourceOf, PlainLines;
    if n == 0 {
      assert commands[..0] == [];
    } else {
      RoundJudged(lines, st, commands, n - 1, limit);
      assert commands[..n][..n - 1] == commands[..n - 1];
      CommandStep(lines, StateAt(lines, st, commands, n - 1, limit), commands[n - 1], limit);
      OverrunsNext(lines, st, commands, n, limit);
      assert RunsOutAt(lines, st, commands, n - 1, limit) <==>
             Incomplete(commands[n - 1]) && RunsOut(lines, StateAt(lines, st, commands, n - 1, limit), SourceOf(commands[n - 1]));
    }
  }

  lemma OverrunsNext(lines: seq<string>, st: Check, commands: seq<seq<Word>>, n: nat, limit: nat)
    requires WithinLimit(lines, limit) && 0 < n <= |commands|
    ensures OverrunsBy(lines, st, commands, n, limit) <==>
              || OverrunsBy(lines, st, commands, n - 1, limit)
              || SpanOverrunsAt(lines, st, commands, n - 1, limit)
              || (Incomplete(commands[n - 1]) && exists j :: j < n - 1 && RunsOutAt(lines, st, commands, j, limit))
  {
    hide SpanOverrunsAt, Incomplete;
    if Incomplete(commands[n - 1]) {
      if j :| j < n - 1 && RunsOutAt(lines, st, commands, j, limit) {
        assert FollowsRunOut(lines, st, commands, j, n - 1, limit);
      }
    }
  }

  // ---------- the heredocs in the queue ----------

  predicate OpenedAt(lines: seq<string>, start: nat, k: nat, h: Heredoc) {
    start < |lines| && k < |ScanAt(lines, start).heredocs| && ScanAt(lines, start).heredocs[k] == h
  }

  /** `h` was opened behind the quote that closes a source on line `c`, counted from zero. */
  predicate OpenedInSuffixAt(lines: seq<string>, c: nat, quote: Quote, k: nat, h: Heredoc) {
    && 1 <= c < |lines| && QuoteClose(lines[c], quote) >= 0
    && OpenedAt([SuffixOf(lines[c], quote)], 0, k, h)
  }

  ghost predicate Known(lines: seq<string>, h: Heredoc) {
    || (exists start: nat, k: nat :: OpenedAt(lines, start, k, h))
    || (exists c: nat, quote, k: nat :: OpenedInSuffixAt(lines, c, quote, k, h))
  }

  ghost predicate AllKnown(lines: seq<string>, hs: seq<Heredoc>) {
    forall i :: 0 <= i < |hs| ==> Known(lines, hs[i])
  }

  /** `h` carries the line on which its delimiter stands. */
  ghost predicate OnOwnLine(lines: seq<string>, h: Heredoc) {
    exists start: nat, offset: nat :: start < |lines| && HeredocReported(lines, start, LastJoined(lines, start), h, offset)
  }

  /** `h` carries line one, although its delimiter stands on line `c + 1`, at `offset` behind
      the quote that closes a source there. */
  ghost predicate MisplacedAt(lines: seq<string>, h: Heredoc, c: nat, quote: Quote, offset: nat) {
    && 1 <= c < |lines| && QuoteClose(lines[c], quote) >= 0
    && HeredocAtLabel(SuffixOf(lines[c], quote), h.(line := offset))
    && h.line == 1
  }

  ghost predicate Misplaced(lines: seq<string>, h: Heredoc) {
    exists c: nat, quote, offset: nat :: MisplacedAt(lines, h, c, quote, offset)
  }

  lemma OpenedOnOwnLine(lines: seq<string>, start: nat, k: nat, h: Heredoc)
    requires OpenedAt(lines, start, k, h)
    ensures HeredocReported(lines, start, LastJoined(lines, start), h, OffsetsAt(lines, start).heredocs[k].line)
    ensures 1 <= h.line <= |lines|
  {
    hide ScanAt, OffsetsAt, Continues, OnLine, HeredocAtLabel, Joins, Pieces, Concat, Spread;
    ScanAtReported(lines, start);
    assert HeredocReported(lines, start, LastJoined(lines, start), h, OffsetsAt(lines, start).heredocs[k].line);
    OnLineWithin(lines, start, LastJoined(lines, start), OffsetsAt(lines, start).heredocs[k].line, h.line);
  }

  lemma OpenedOnOnlyLine(text: string, k: nat, h: Heredoc)
    requires OpenedAt([text], 0, k, h)
    ensures HeredocAtLabel(text, h.(line := OffsetsAt([text], 0).heredocs[k].line)) && h.line == 1
  {
    hide ScanAt, OffsetsAt, Continues, HeredocAtLabel, Concat, OnLine;
    OpenedOnOwnLine([text], 0, k, h);
    JoinOne([text], 0);
  }

  lemma OpenedInSuffix(lines: seq<string>, c: nat, quote: Quote, k: nat, h: Heredoc)
    requires OpenedInSuffixAt(lines, c, quote, k, h)
    ensures MisplacedAt(lines, h, c, quote, OffsetsAt([SuffixOf(lines[c], quote)], 0).heredocs[k].line)
  {
    hide QuoteClose, SuffixOf, OpenedAt, HeredocAtLabel, OffsetsAt;
    OpenedOnOnlyLine(SuffixOf(lines[c], quote), k, h);
  }

  lemma OwnLine(lines: seq<string>, start: nat, k: nat, h: Heredoc)
    requires OpenedAt(lines, start, k, h)
    ensures OnOwnLine(lines, h) && 1 <= h.line <= |lines|
  {
    hide HeredocReported, Scan, Concat, Pieces, LineAt;
    OpenedOnOwnLine(lines, start, k, h);
    var offset := OffsetsAt(lines, start).heredocs[k].line;
    assert HeredocReported(lines, start, LastJoined(lines, start), h, offset);
  }

  lemma SuffixLine(lines: seq<string>, c: nat, quote: Quote, k: nat, h: Heredoc)
    requires OpenedInSuffixAt(lines, c, quote, k, h)
    ensures Misplaced(lines, h) && h.line == 1 <= |lines|
  {
    hide QuoteClose, SuffixOf, HeredocAtLabel, Scan, Concat, Pieces, LineAt;
    OpenedInSuffix(lines, c, quote, k, h);
    var offset := OffsetsAt([SuffixOf(lines[c], quote)], 0).heredocs[k].line;
    assert MisplacedAt(lines, h, c, quote, offset);
  }

  lemma KnownLines(lines: seq<string>, h: Heredoc)
    requires Known(lines, h)
    ensures OnOwnLine(lines, h) || Misplaced(lines, h)
    ensures 1 <= h.line <= |lines|
  {
    hide OpenedAt, OpenedInSuffixAt, OnOwnLine, Misplaced;
    if start: nat, k: nat :| OpenedAt(lines, start, k, h) {
      OwnLine(lines, start, k, h);
    } else {
      var c: nat, quote, k: nat :| OpenedInSuffixAt(lines, c, quote, k, h);
      SuffixLine(lines, c, quote, k, h);
    }
  }

  /** The heredocs of a closing-quote suffix are queued, each with line one, although each
      stands on the line of the closing quote, which is never the first. */
  lemma SuffixHeredocsMisplaced(lines: seq<string>, st: Check, s: Source, limit: nat)
    requires WithinLimit(lines, limit) && PlainLines(lines) && st.pending == []
    requires Spans(lines, st, s) && 1 <= s.word.line <= |lines|
    ensures var c := ClosingLine(lines, st.index + 1, s.word.openQuote);
            var queue, suffix := JudgeIncomplete(lines, st, s, limit).pending, SuffixOf(lines[c], s.word.openQuote);
            && |queue| == |Scan(suffix).heredocs|
            && forall k :: 0 <= k < |queue| ==>
                 MisplacedAt(lines, queue[k], c, s.word.openQuote, Scan(suffix).heredocs[k].line)
  {
    hide QuoteClose, ScanAt, Scan, ClosingLine, MisplacedAt, SuffixOf, JudgeIncomplete, SpanOverruns;
    SpanStep(lines, st, s, limit);
    var c := ClosingLine(lines, st.index + 1, s.word.openQuote);
    var suffix := SuffixOf(lines[c], s.word.openQuote);
    OnlyLine(suffix);
    forall k | 0 <= k < |ScanAt([suffix], 0).heredocs|
      ensures MisplacedAt(lines, ScanAt([suffix], 0).heredocs[k], c, s.word.openQuote, Scan(suffix).heredocs[k].line)
    {
      OpenedInSuffix(lines, c, s.word.openQuote, k, ScanAt([suffix], 0).heredocs[k]);
    }
  }

  lemma OnlyLine(text: string)
    ensures OffsetsAt([text], 0) == Scan(text) && |ScanAt([text], 0).heredocs| == |Scan(text).heredocs|
  {
    hide Continues, Scan, Concat;
    JoinOne([text], 0);
  }

  lemma SuffixKnown(lines: seq<string>, c: nat, quote: Quote)
    requires 1 <= c < |lines| && QuoteClose(lines[c], quote) >= 0
    ensures AllKnown(lines, ScanAt([SuffixOf(lines[c], quote)], 0).heredocs)
  {
    hide QuoteClose, ScanAt, SuffixOf;
    var hs := ScanAt([SuffixOf(lines[c], quote)], 0).heredocs;
    forall i | 0 <= i < |hs|
      ensures Known(lines, hs[i])
    {
      assert OpenedInSuffixAt(lines, c, quote, i, hs[i]);
    }
  }

  lemma BodyLineKnown(lines: seq<string>, body: seq<string>, st: Check)
    requires st.index < |body| && st.pending != [] && AllKnown(lines, st.pending)
    ensures AllKnown(lines, BodyLine(body, st).pending)
  {
    hide Known, StripTabs, Expands;
  }

  lemma CommandKnown(lines: seq<string>, st: Check, words: seq<Word>, limit: nat)
    requires WithinLimit(lines, limit) && PlainLines(lines) && WordsWithin(words, |lines|) && st.index <= |lines|
    requires AllKnown(lines, st.pending)
    ensures AllKnown(lines, Judge(lines, st, words, limit).pending)
  {
    hide SourceOf, JudgeIncomplete, WordsWithin, Known, BodyLine, ScanAt, QuoteClose, ClosingLine, SpanOverruns;
    var s := SourceOf(words);
    SourceWithin(words, |lines|);
    if Incomplete(words) {
      assert Judge(lines, st, words, limit) == JudgeIncomplete(lines, st, s, limit);
      if Spans(lines, st, s) {
        SpanStep(lines, st, s, limit);
        var c := ClosingLine(lines, st.index + 1, s.word.openQuote);
        SuffixKnown(lines, c, s.word.openQuote);
        if st.pending != [] {
          BodyLineKnown(lines, [SuffixOf(lines[c], s.word.openQuote)], Check(0, st.pending, []));
        }
      } else {
        LineStep(lines, st, s, limit);
      }
    }
  }

  lemma {:induction false} RoundKnown(lines: seq<string>, st: Check, commands: seq<seq<Word>>, n: nat, limit: nat)
    requires WithinLimit(lines, limit) && PlainLines(lines) && st.index < |lines| && n <= |commands|
    requires forall i :: 0 <= i < |commands| ==> WordsWithin(commands[i], |lines|)
    requires AllKnown(lines, st.pending)
    ensures AllKnown(lines, StateAt(lines, st, commands, n, limit).pending)
  {
    hide Judge, WordsWithin, PlainLines, AllKnown, Beyond, LinesWithin, OverrunsBy, RunsOutAt;
    if n == 0 {
      assert commands[..0] == [];
    } else {
      RoundKnown(lines, st, commands, n - 1, limit);
      RoundJudged(lines, st, commands, n - 1, limit);
      assert commands[..n][..n - 1] == commands[..n - 1];
      CommandKnown(lines, StateAt(lines, st, commands, n - 1, limit), commands[n - 1], limit);
    }
  }

  lemma ScanKnown(lines: seq<string>, start: nat)
    requires start < |lines|
    ensures AllKnown(lines, ScanAt(lines, start).heredocs)
  {
    hide ScanAt;
    var hs := ScanAt(lines, start).heredocs;
    forall i | 0 <= i < |hs|
      ensures Known(lines, hs[i])
    {
      assert OpenedAt(lines, start, i, hs[i]);
    }
  }

  // ---------- the rounds of a text ----------

  /** The state after `n` rounds, or at the end of the text. */
  function Rounds(text: string, n: nat): Check {
    if n == 0 then Check(0, [], [])
    else
      var st, lines := Rounds(text, n - 1), SplitLines(text);
      if st.index >= |lines| then st else Round(lines, st, |text|)
  }

  /** Round `n` reads commands, and overruns. */
  ghost predicate OverrunsIn(text: string, n: nat) {
    var lines, st := SplitLines(text), Rounds(text, n);
    && st.index < |lines| && st.pending == []
    && OverrunsBy(lines, st, ScanAt(lines, st.index).commands, |ScanAt(lines, st.index).commands|, |text|)
  }

  lemma RoundStep(text: string, st: Check)
    requires st.index < |SplitLines(text)| && AllKnown(SplitLines(text), st.pending)
    ensures var lines := SplitLines(text);
            var r, scan := Round(lines, st, |text|), ScanAt(lines, st.index);
            && AllKnown(lines, r.pending)
            && (LinesWithin(st.findings, |lines| + 1) ==> LinesWithin(r.findings, |lines| + 1))
            && (Beyond(r.findings, |lines|) <==>
                || Beyond(st.findings, |lines|)
                || (st.pending == [] && OverrunsBy(lines, st, scan.commands, |scan.commands|, |text|)))
  {
    hide SplitLines, ScanAt, JudgeAll, WordsWithin, Known, Beyond, LinesWithin, OverrunsBy, RunsOutAt, Expands, StripTabs;
    var lines := SplitLines(text);
    NoBreakInLines(text);
    if st.pending == [] {
      var scan := ScanAt(lines, st.index);
      var n := |scan.commands|;
      ScanWithin(lines, st.index);
      ScanKnown(lines, st.index);
      RoundJudged(lines, st, scan.commands, n, |text|);
      RoundKnown(lines, st, scan.commands, n, |text|);
      assert scan.commands[..n] == scan.commands;
    } else {
      BodyLineKnown(lines, lines, st);
      ReportedIn(st, st.index + 1, |lines|);
      ReportedIn(st, st.index + 1, |lines| + 1);
    }
  }

  lemma {:induction false} RoundsJudged(text: string, n: nat)
    ensures var lines, st := SplitLines(text), Rounds(text, n);
            && AllKnown(lines, st.pending) && LinesWithin(st.findings, |lines| + 1)
            && (Beyond(st.findings, |lines|) <==> exists i: nat :: i < n && OverrunsIn(text, i))
            && (st.index >= n || st.index >= |lines|)
            && CheckFrom(lines, st, |text|) == CheckFrom(lines, Check(0, [], []), |text|)
  {
    hide SplitLines, ScanAt, Round, Known, Beyond, LinesWithin, OverrunsBy, RunsOutAt;
    if n == 0 {
      NothingBeyond(|SplitLines(text)|);
      NothingWithin(|SplitLines(text)| + 1);
    } else {
      RoundsJudged(text, n - 1);
      var st, lines := Rounds(text, n - 1), SplitLines(text);
      assert OverrunsIn(text, n - 1) <==>
             && st.index < |lines| && st.pending == []
             && OverrunsBy(lines, st, ScanAt(lines, st.index).commands, |ScanAt(lines, st.index).commands|, |text|);
      if st.index < |SplitLines(text)| {
        RoundStep(text, st);
      }
    }
  }

  /** Where the queue's heredocs carry their lines: at any time each is reported at its own
      line, or was opened behind a closing quote and carries line one. */
  lemma QueuedLines(text: string, n: nat, i: nat)
    requires i < |Rounds(text, n).pending|
    ensures OnOwnLine(SplitLines(text), Rounds(text, n).pending[i]) || Misplaced(SplitLines(text), Rounds(text, n).pending[i])
  {
    hide SplitLines, Rounds, Known, OnOwnLine, Misplaced, CheckFrom, Beyond, LinesWithin, OverrunsIn;
    RoundsJudged(text, n);
    KnownLines(SplitLines(text), Rounds(text, n).pending[i]);
  }

  // ---------- the lines of all findings ----------

  lemma {:induction false} UnclosedWithin(lines: seq<string>, pending: seq<Heredoc>)
    requires AllKnown(lines, pending)
    ensures LinesWithin(Unclosed(pending), |lines|)
  {
    hide Known;
    if pending == [] {
    } else {
      var init, h := pending[..|pending| - 1], pending[|pending| - 1];
      UnclosedWithin(lines, init);
      KnownLines(lines, h);
    }
  }

  lemma CheckIsRounds(text: string)
    ensures var lines := SplitLines(text); CheckFrom(lines, Check(0, [], []), |text|) == Rounds(text, |lines|)
  {
    hide SplitLines, Rounds, AllKnown, Beyond, LinesWithin, OverrunsIn;
    RoundsJudged(text, |SplitLines(text)|);
  }

  lemma WithinNotBeyond(fs: seq<Finding>, max: nat)
    requires LinesWithin(fs, max)
    ensures !Beyond(fs, max) && LinesWithin(fs, max + 1)
  {
  }

  lemma PastTheEnd(text: string, n: nat)
    requires OverrunsIn(text, n)
    ensures n < |SplitLines(text)|
  {
    hide SplitLines, AllKnown, Beyond, LinesWithin, OverrunsBy, CheckFrom;
    RoundsJudged(text, n);
  }

  /** When a finding lies past the end of the text: exactly when in some round an incomplete
      source follows one that ran out of the text, or one closes its quote on the last line
      before a suffix that overruns by itself.  No finding lies further than one line past the
      end. */
  lemma OverrunExactly(text: string)
    ensures var lines, found := SplitLines(text), CheckText(text, [], true).0;
            && (Beyond(found, |lines|) <==> exists n: nat :: OverrunsIn(text, n))
            && LinesWithin(found, |lines| + 1)
  {
    hide SplitLines, Rounds, AllKnown, Beyond, LinesWithin, OverrunsIn, CheckFrom, Unclosed;
    var lines := SplitLines(text);
    var n := |lines|;
    RoundsJudged(text, n);
    CheckIsRounds(text);
    var st := Rounds(text, n);
    UnclosedWithin(lines, st.pending);
    WithinNotBeyond(Unclosed(st.pending), n);
    BeyondAppend(st.findings, Unclosed(st.pending), n);
    WithinAppend(st.findings, Unclosed(st.pending), n + 1);
    if i: nat :| OverrunsIn(text, i) {
      PastTheEnd(text, i);
    }
  }

  /** For a text of one line the condition needs no rounds: a finding lies past its end exactly
      when it ends in a backslash and two of its commands have an incomplete source. */
  lemma OneLineTextExactly(text: string)
    requires '\n' !in text
    ensures Beyond(CheckText(text, [], true).0, 1) <==> OneLineOverruns(text)
  {
    hide SplitLines, CheckFrom, ScanAt, AllKnown, Beyond, LinesWithin, OneLineOverruns, Unclosed;
    OneLineExactly(text, []);
    var (found, pending) := CheckText(text, [], false);
    assert CheckText(text, [], true).0 == found + Unclosed(pending) by {
      assert CheckFrom(SplitLines(text), Check(0, [], []), |text|).findings + [] == found;
    }
    ScanKnown([text], 0);
    UnclosedWithin([text], pending);
    WithinNotBeyond(Unclosed(pending), 1);
    BeyondAppend(found, Unclosed(pending), 1);
  }

  /** How far past the last line a finding can be reported: not at all, unless the text ends
      in a backslash, and then by one line. */
  function Overrun(lines: seq<string>): nat {
    if lines != [] && EndsInBackslash(lines[|lines| - 1]) then 1 else 0
  }

  lemma SuffixEndsAlike(line: string, k: nat)
    requires k <= |line|
    ensures EndsInBackslash(line[k..]) ==> EndsInBackslash(line)
  {
    var t, u := TrimEnd(line[k..]), TrimEnd(line);
    if EndsInBackslash(line[k..]) {
      assert line[k..][|t| - 1] == line[k + |t| - 1] == '\\';
      assert |u| >= k + |t|;
    }
  }

  lemma OverrunNeedsBackslash(lines: seq<string>, st: Check, commands: seq<seq<Word>>, n: nat, limit: nat)
    requires WithinLimit(lines, limit) && n <= |commands| && OverrunsBy(lines, st, commands, n, limit)
    ensures Overrun(lines) == 1
  {
    hide Incomplete, EndsInBackslash, TwoIncomplete, QuoteClose, ScanAt, JudgeAll, SourceOf;
    if j, k :| k < n && FollowsRunOut(lines, st, commands, j, k, limit) {
      assert RunsOutAt(lines, st, commands, j, limit);
    } else {
      var j :| j < n && SpanOverrunsAt(lines, st, commands, j, limit);
      var m, s := StateAt(lines, st, commands, j, limit), SourceOf(commands[j]);
      var line := lines[|lines| - 1];
      SuffixEndsAlike(line, QuoteClose(line, s.word.openQuote) + 1);
    }
  }

  /** Every finding of a check, whichever of its kinds, names a line of the text, except that
      a text whose last line ends in a backslash may have findings one line past its end. */
  lemma CheckWithin(text: string)
    ensures LinesWithin(CheckText(text, [], true).0, |SplitLines(text)| + Overrun(SplitLines(text)))
  {
    hide SplitLines, CheckText, OverrunsBy;
    var lines, found := SplitLines(text), CheckText(text, [], true).0;
    OverrunExactly(text);
    if Overrun(lines) == 0 {
      if n: nat :| OverrunsIn(text, n) {
        var st := Rounds(text, n);
        OverrunNeedsBackslash(lines, st, ScanAt(lines, st.index).commands, |ScanAt(lines, st.index).commands|, |text|);
      }
    }
  }

  /** The exception is real: when the last line ends in a backslash and holds two interpreter
      commands without a source, the second is reported past the end of the text. */
  lemma OverrunHappens(lines: seq<string>, st: Check, first: seq<Word>, second: seq<Word>, limit: nat)
    requires WithinLimit(lines, limit) && st.index + 1 == |lines| && EndsInBackslash(lines[st.index])
    requires SourceOf(first).Missing? && SourceOf(second).Missing?
    ensures var r := JudgeAll(lines, st, [first, second], limit);
            && r.findings == st.findings + [Finding(|lines|, Unterminated(SourceOf(first).command)),
                                            Finding(|lines| + 1, Unterminated(SourceOf(second).command))]
  {
    hide SourceOf, EndsInBackslash, Expands;
    assert [first, second][..1] == [first];
    assert [first][..0] == [];
    var m := Report(st, |lines|, Unterminated(SourceOf(first).command)).(index := |lines|);
    MissingOnLastLine(lines, st, first, limit);
    assert JudgeAll(lines, st, [first], limit) == m;
    MissingPastEnd(lines, m, second, limit);
  }

  lemma MissingOnLastLine(lines: seq<string>, st: Check, words: seq<Word>, limit: nat)
    requires WithinLimit(lines, limit) && st.index + 1 == |lines| && EndsInBackslash(lines[st.index]) && SourceOf(words).Missing?
    ensures Judge(lines, st, words, limit) == Report(st, |lines|, Unterminated(SourceOf(words).command)).(index := |lines|)
  {
    hide SourceOf, EndsInBackslash, Expands;
    assert LastContinued(lines, |lines|) == |lines|;
    assert !SomeExpands(lines, |lines|, |lines|);
    assert Judge(lines, st, words, limit) == JudgeIncomplete(lines, st, SourceOf(words), limit);
  }

  lemma MissingPastEnd(lines: seq<string>, st: Check, words: seq<Word>, limit: nat)
    requires WithinLimit(lines, limit) && st.index == |lines| && SourceOf(words).Missing?
    ensures Judge(lines, st, words, limit) == Report(st, |lines| + 1, Unterminated(SourceOf(words).command))
  {
    hide SourceOf, EndsInBackslash, Expands;
    assert Judge(lines, st, words, limit) == JudgeIncomplete(lines, st, SourceOf(words), limit);
  }
}
