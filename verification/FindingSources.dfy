/** What the checker reports, command by command, and from there every finding of a text. */
module FindingSources {
  import opened Json
  import opened ShellText
  import opened ShellWords
  import opened ShellCommands
  import opened ShellLines
  import opened InterpreterCheck
  import opened FindingLines
  import opened SourceText
  import opened SourceWords

  // ---------- how a source goes on behind its line ----------

  predicate Whole(w: Word) {
    w.text != "" && w.openQuote == NoQuote
  }

  /** Line `c` is the first behind line `index` that closes the quote, and does so at `k`. */
  predicate ClosesOn(lines: seq<string>, index: nat, quote: Quote, c: nat, k: nat) {
    && index < c < |lines| && FirstClose(lines[c], quote, k)
    && forall d :: index < d < c ==> NoClose(lines[d], quote)
  }

  predicate NeverCloses(lines: seq<string>, index: nat, quote: Quote) {
    forall d :: index < d < |lines| ==> NoClose(lines[d], quote)
  }

  /** An expansion stands before the closing quote: on the source's own line, or, in a source
      in double quotes, on a line between or on the closing line up to the quote. */
  predicate SpanHolds(lines: seq<string>, w: Word, index: nat, c: nat, k: nat)
    requires c < |lines| && k <= |lines[c]|
  {
    || w.expandable != []
    || (w.openQuote == Double &&
        ((exists d :: index < d < c && HoldsExpansion(lines[d])) || HoldsExpansion(lines[c][..k])))
  }

  /** Line `index` and those behind it end in a backslash, up to line `c`, which does not or
      is none. */
  predicate RunsOver(lines: seq<string>, index: nat, c: nat) {
    && index < c <= |lines|
    && (forall d :: index <= d < c ==> LastIsBackslash(lines[d]))
    && (c < |lines| ==> !LastIsBackslash(lines[c]))
  }

  predicate StopsAt(lines: seq<string>, index: nat) {
    index < |lines| ==> !LastIsBackslash(lines[index])
  }

  predicate RunHolds(lines: seq<string>, index: nat, c: nat) {
    exists d :: index < d <= c && d < |lines| && HoldsExpansion(lines[d])
  }

  /** The source is missing, or is empty or open and never closed; `live` says whether what
      there is of it holds an expansion. */
  ghost predicate Unfinished(lines: seq<string>, index: nat, words: seq<Word>, command: string, live: bool) {
    || (Lacks(words, command) && !live)
    || exists w :: Takes(words, command, w) && !Whole(w) && NeverCloses(lines, index, w.openQuote) && live == (w.expandable != [])
  }

  // ---------- from one state to the next ----------

  function With(st: Check, fs: seq<Finding>): Check {
    st.(findings := st.findings + fs)
  }

  /** The checker stands on the closing line; what follows the quote has been checked as a text
      of its own that shares the queue, its findings moved to that line. */
  predicate Spanned(lines: seq<string>, st: Check, w: Word, c: nat, k: nat, r: Check) {
    && c < |lines| && k < |lines[c]|
    && var (found, pending) := CheckText(lines[c][k + 1..], st.pending, false);
       && r.index == c && r.pending == pending
       && r.findings == st.findings
                        + (if SpanHolds(lines, w, st.index, c, k) then [Finding(w.line, CommandSource)] else [])
                        + Shifted(found, c)
  }

  lemma {:induction false} ClosingExactly(lines: seq<string>, index: nat, quote: Quote)
    requires index < |lines|
    ensures ClosingLine(lines, index + 1, quote) == |lines| <==> NeverCloses(lines, index, quote)
    ensures forall c: nat, k: nat :: ClosesOn(lines, index, quote, c, k) <==>
                                       c == ClosingLine(lines, index + 1, quote) < |lines| && k == QuoteClose(lines[c], quote)
    decreases |lines| - index
  {
    hide FirstClose, NoClose, QuoteClose;
    if index + 1 == |lines| {
    } else {
      CloseExactly(lines[index + 1], quote);
      ClosingExactly(lines, index + 1, quote);
      forall c: nat, k: nat
        ensures ClosesOn(lines, index, quote, c, k) <==>
                  c == ClosingLine(lines, index + 1, quote) < |lines| && k == QuoteClose(lines[c], quote)
      {
        assert c != index + 1 ==> (ClosesOn(lines, index, quote, c, k) <==> NoClose(lines[index + 1], quote) && ClosesOn(lines, index + 1, quote, c, k));
      }
    }
  }

  lemma {:induction false} ContinuedExactly(lines: seq<string>, from: nat)
    requires from <= |lines|
    ensures var c := LastContinued(lines, from);
            && (forall d :: from <= d < c ==> LastIsBackslash(lines[d]))
            && (c < |lines| ==> !LastIsBackslash(lines[c]))
    decreases |lines| - from
  {
    hide LastIsBackslash, EndsInBackslash;
    if from == |lines| {
    } else {
      BackslashExactly(lines[from]);
      ContinuedExactly(lines, from + 1);
    }
  }

  lemma RunsOverExactly(lines: seq<string>, index: nat)
    ensures index < |lines| && EndsInBackslash(lines[index]) <==> !StopsAt(lines, index)
    ensures forall c :: RunsOver(lines, index, c) <==> !StopsAt(lines, index) && c == LastContinued(lines, index + 1)
  {
    hide LastIsBackslash, EndsInBackslash;
    if index < |lines| {
      BackslashExactly(lines[index]);
      ContinuedExactly(lines, index + 1);
    }
  }

  lemma SpanHoldsExactly(lines: seq<string>, w: Word, index: nat, c: nat)
    requires index < c < |lines| && QuoteClose(lines[c], w.openQuote) >= 0 && w.openQuote != NoQuote
    ensures SpanExpands(lines, w, index + 1, c) <==> SpanHolds(lines, w, index, c, QuoteClose(lines[c], w.openQuote))
  {
    hide Expands, HoldsExpansion, QuoteClose;
    forall s
      ensures Expands(s) <==> HoldsExpansion(s)
    {
      ExpandsExactly(s);
    }
  }

  lemma RunHoldsExactly(lines: seq<string>, index: nat)
    requires index < |lines|
    ensures var c := LastContinued(lines, index + 1);
            RunHolds(lines, index, c) <==> SomeExpands(lines, index + 1, c) || (c < |lines| && Expands(lines[c]))
  {
    hide Expands, HoldsExpansion;
    forall s
      ensures Expands(s) <==> HoldsExpansion(s)
    {
      ExpandsExactly(s);
    }
  }

  /** An incomplete source that no later line closes. */
  lemma UnfinishedJudged(lines: seq<string>, st: Check, s: Source, limit: nat)
    requires WithinLimit(lines, limit) && (s.Missing? || s.Given?)
    requires s.Given? ==> NeverCloses(lines, st.index, s.word.openQuote)
    ensures var r := JudgeIncomplete(lines, st, s, limit);
            var live := s.Given? && s.word.expandable != [];
            && (forall c :: RunsOver(lines, st.index, c) ==>
                  r == With(st, [Finding(st.index + 1, if live || RunHolds(lines, st.index, c) then CommandSource else Unterminated(s.command))]).(index := c))
            && (StopsAt(lines, st.index) ==> r == With(st, [Finding(st.index + 1, Unterminated(s.command))]))
  {
    hide LastContinued, ClosingLine, EndsInBackslash, Expands, SomeExpands, RunHolds, RunsOver, StopsAt, NeverCloses;
    if s.Given? && st.index < |lines| {
      ClosingExactly(lines, st.index, s.word.openQuote);
    }
    RunsOverExactly(lines, st.index);
    if st.index < |lines| {
      RunHoldsExactly(lines, st.index);
    }
  }

  /** An open source that a later line closes. */
  lemma SpannedJudged(lines: seq<string>, st: Check, s: Source, c: nat, k: nat, limit: nat)
    requires WithinLimit(lines, limit) && s.Given? && ClosesOn(lines, st.index, s.word.openQuote, c, k)
    ensures Spanned(lines, st, s.word, c, k, JudgeIncomplete(lines, st, s, limit))
  {
    hide CheckText, SpanExpands, SpanHolds, ClosingLine, NoClose, Shifted;
    ClosingExactly(lines, st.index, s.word.openQuote);
    assert s.word.openQuote != NoQuote;
    SpanHoldsExactly(lines, s.word, st.index, c);
    assert k == QuoteClose(lines[c], s.word.openQuote);
    var st1 := if SpanExpands(lines, s.word, st.index + 1, c) then Report(st, s.word.line, CommandSource) else st;
    var (found, pending) := CheckText(lines[c][k + 1..], st.pending, false);
    assert JudgeIncomplete(lines, st, s, limit) == Check(c, pending, st1.findings + Shifted(found, c));
    assert st.findings + [] == st.findings;
  }

  /** What one command of a round reports, whatever the command.  One that asks for no source
      reports nothing.  A closed and non-empty source is reported at its line if and only if it
      holds an expansion, and nothing else is.  An open source that a later line closes is
      reported if and only if an expansion stands before the closing quote, and the checker
      goes on behind the quote.  Any other source is reported at the line the checker stands
      on: as unterminated, or, when backslashes carry it over further lines, as expanding if
      and only if it or one of those lines holds an expansion. */
  lemma CommandExactly(lines: seq<string>, st: Check, words: seq<Word>, limit: nat)
    requires WithinLimit(lines, limit)
    ensures var r := Judge(lines, st, words, limit);
            && (!AsksForSource(words) ==> r == st)
            && (forall command, w :: Takes(words, command, w) && Whole(w) ==>
                  r == With(st, if w.expandable != [] then [Finding(w.line, CommandSource)] else []))
            && (forall command, w, c: nat, k: nat ::
                  Takes(words, command, w) && !Whole(w) && ClosesOn(lines, st.index, w.openQuote, c, k) ==>
                  Spanned(lines, st, w, c, k, r))
            && (forall command, live, c :: Unfinished(lines, st.index, words, command, live) && RunsOver(lines, st.index, c) ==>
                  r == With(st, [Finding(st.index + 1, if live || RunHolds(lines, st.index, c) then CommandSource else Unterminated(command))]).(index := c))
            && (forall command, live :: Unfinished(lines, st.index, words, command, live) && StopsAt(lines, st.index) ==>
                  r == With(st, [Finding(st.index + 1, Unterminated(command))]))
  {
    hide SourceOf, JudgeIncomplete, Takes, Lacks, AsksForSource, ClosesOn, NeverCloses, RunsOver, StopsAt, RunHolds, Spanned;
    var s := SourceOf(words);
    SourceExactly(words);
    assert With(st, []) == st;
    if s.Given? || s.Missing? {
      if IsComplete(s) {
      } else {
        assert Judge(lines, st, words, limit) == JudgeIncomplete(lines, st, s, limit);
        if s.Given? {
          forall c: nat, k: nat | ClosesOn(lines, st.index, s.word.openQuote, c, k)
            ensures Spanned(lines, st, s.word, c, k, JudgeIncomplete(lines, st, s, limit))
          {
            SpannedJudged(lines, st, s, c, k, limit);
          }
        }
        if s.Given? ==> NeverCloses(lines, st.index, s.word.openQuote) {
          UnfinishedJudged(lines, st, s, limit);
        }
      }
    }
  }

  // ---------- which findings a command adds ----------

  /** A finding of a command whose source is not followed to a closing quote. */
  ghost predicate AddsHere(lines: seq<string>, st: Check, words: seq<Word>, f: Finding) {
    || (exists command, w :: Takes(words, command, w) && Whole(w) && w.expandable != [] && f == Finding(w.line, CommandSource))
    || (exists command, live, c :: Unfinished(lines, st.index, words, command, live) && RunsOver(lines, st.index, c) &&
          f == Finding(st.index + 1, if live || RunHolds(lines, st.index, c) then CommandSource else Unterminated(command)))
    || (exists command, live :: Unfinished(lines, st.index, words, command, live) && StopsAt(lines, st.index) &&
          f == Finding(st.index + 1, Unterminated(command)))
  }

  /** A line is a heredoc's delimiter once leading tabs are dropped where the heredoc says so. */
  predicate Delimits(here: Heredoc, line: string) {
    if here.stripTabs then
      exists n :: 0 <= n <= |line| && line[n..] == here.delimiter &&
                  (forall k :: 0 <= k < n ==> line[k] == '\t') && (n < |line| ==> line[n] != '\t')
    else line == here.delimiter
  }

  /** A finding of the body line the checker stands on. */
  predicate AddsInBody(lines: seq<string>, st: Check, f: Finding) {
    && st.index < |lines| && st.pending != []
    && var here := st.pending[0];
       && !Delimits(here, lines[st.index])
       && here.interpreter && here.expanding && HoldsExpansion(lines[st.index])
       && f == Finding(st.index + 1, HeredocSource)
  }

  /** A finding of the text behind a closing quote, with the queue it shares. */
  ghost predicate AddsBehind(text: string, pending: seq<Heredoc>, f: Finding) {
    var st, commands := Check(0, pending, []), ScanAt([text], 0).commands;
    if pending != [] then AddsInBody([text], st, f)
    else exists j: nat :: j < |commands| && AddsHere([text], StateAt([text], st, commands, j, |text|), commands[j], f)
  }

  /** A finding that a command adds from the state `st` in front of it. */
  ghost predicate Adds(lines: seq<string>, st: Check, words: seq<Word>, f: Finding) {
    || AddsHere(lines, st, words, f)
    || exists command, w, c: nat, k: nat ::
         && Takes(words, command, w) && !Whole(w) && ClosesOn(lines, st.index, w.openQuote, c, k)
         && (|| (SpanHolds(lines, w, st.index, c, k) && f == Finding(w.line, CommandSource))
             || (f.line >= c && AddsBehind(lines[c][k + 1..], st.pending, f.(line := f.line - c))))
  }

  lemma WithAdds(st: Check, fs: seq<Finding>, f: Finding)
    ensures f in With(st, fs).findings <==> f in st.findings || f in fs
  {
  }

  /** Either the source is none, whole, closed further on, or unfinished; each once. */
  lemma SourceCases(lines: seq<string>, index: nat, words: seq<Word>)
    ensures forall command, w :: Takes(words, command, w) ==>
              && SourceOf(words) == Given(command, w)
              && AsksForSource(words)
              && (NeverCloses(lines, index, w.openQuote) || exists c: nat, k: nat :: ClosesOn(lines, index, w.openQuote, c, k))
              && (forall c: nat, k: nat :: ClosesOn(lines, index, w.openQuote, c, k) ==> !NeverCloses(lines, index, w.openQuote))
    ensures forall command :: Lacks(words, command) ==> SourceOf(words) == Missing(command) && AsksForSource(words)
    ensures AsksForSource(words) ==> SourceOf(words).Given? || SourceOf(words).Missing?
    ensures SourceOf(words).Given? ==> Takes(words, SourceOf(words).command, SourceOf(words).word)
    ensures SourceOf(words).Missing? ==> Lacks(words, SourceOf(words).command)
  {
    hide SourceOf, Takes, Lacks, AsksForSource, ClosingLine, NoClose, FirstClose, QuoteClose;
    SourceExactly(words);
    forall command, w | Takes(words, command, w)
      ensures NeverCloses(lines, index, w.openQuote) || exists c: nat, k: nat :: ClosesOn(lines, index, w.openQuote, c, k)
      ensures forall c: nat, k: nat :: ClosesOn(lines, index, w.openQuote, c, k) ==> !NeverCloses(lines, index, w.openQuote)
    {
      if index < |lines| {
        ClosingExactly(lines, index, w.openQuote);
        var c := ClosingLine(lines, index + 1, w.openQuote);
        if c < |lines| {
          assert ClosesOn(lines, index, w.openQuote, c, QuoteClose(lines[c], w.openQuote));
        }
      }
    }
  }

  lemma HereAdded(lines: seq<string>, st: Check, words: seq<Word>, limit: nat, f: Finding)
    requires WithinLimit(lines, limit)
    requires SourceOf(words).Given? && !Whole(SourceOf(words).word) ==> NeverCloses(lines, st.index, SourceOf(words).word.openQuote)
    ensures f in Judge(lines, st, words, limit).findings <==> f in st.findings || AddsHere(lines, st, words, f)
  {
    hide SourceOf, Judge, Takes, Lacks, AsksForSource, ClosesOn, NeverCloses, RunsOver, StopsAt, RunHolds, Spanned, With;
    var s, r := SourceOf(words), Judge(lines, st, words, limit);
    SourceCases(lines, st.index, words);
    CommandExactly(lines, st, words, limit);
    RunsOverExactly(lines, st.index);
    if s.NoSource? {
      assert !AddsHere(lines, st, words, f);
    } else if s.Given? && Whole(s.word) {
      WithAdds(st, [Finding(s.word.line, CommandSource)], f);
      WithAdds(st, [], f);
    } else {
      var live := s.Given? && s.word.expandable != [];
      assert Unfinished(lines, st.index, words, s.command, live);
      UnfinishedOnce(lines, st.index, words, s.command, live);
      if StopsAt(lines, st.index) {
        WithAdds(st, [Finding(st.index + 1, Unterminated(s.command))], f);
      } else {
        var c := LastContinued(lines, st.index + 1);
        WithAdds(st, [Finding(st.index + 1, if live || RunHolds(lines, st.index, c) then CommandSource else Unterminated(s.command))], f);
      }
    }
  }

  lemma UnfinishedOnce(lines: seq<string>, index: nat, words: seq<Word>, command: string, live: bool)
    requires Unfinished(lines, index, words, command, live)
    ensures forall other, alive :: Unfinished(lines, index, words, other, alive) ==> other == command && alive == live
    ensures forall other, w :: Takes(words, other, w) ==> !Whole(w)
  {
    hide SourceOf, Takes, Lacks, AsksForSource, NeverCloses, ClosesOn;
    SourceCases(lines, index, words);
  }

  lemma {:induction false} TabsExactly(line: string)
    ensures var t := StripTabs(line);
            && |t| <= |line| && line[|line| - |t|..] == t
            && (forall k :: 0 <= k < |line| - |t| ==> line[k] == '\t')
            && (t != "" ==> t[0] != '\t')
  {
    if line == "" || line[0] != '\t' {
    } else {
      TabsExactly(line[1..]);
    }
  }

  lemma DelimitsExactly(here: Heredoc, line: string)
    ensures Ends(here, line) <==> Delimits(here, line)
  {
    TabsExactly(line);
    var t := StripTabs(line);
    var m := |line| - |t|;
    if here.stripTabs {
      assert m < |line| ==> line[m] == t[0];
      if n :| 0 <= n <= |line| && line[n..] == here.delimiter && (forall k :: 0 <= k < n ==> line[k] == '\t') && (n < |line| ==> line[n] != '\t') {
        assert n == m;
      }
    }
  }

  lemma BodyAdded(lines: seq<string>, st: Check, f: Finding)
    requires st.index < |lines| && st.pending != []
    ensures f in BodyLine(lines, st).findings <==> f in st.findings || AddsInBody(lines, st, f)
  {
    hide StripTabs, Delimits, Expands, HoldsExpansion;
    DelimitsExactly(st.pending[0], lines[st.index]);
    ExpandsExactly(lines[st.index]);
  }

  lemma {:induction false} OneLineAdded(text: string, st: Check, commands: seq<seq<Word>>, n: nat, f: Finding)
    requires n <= |commands|
    ensures f in StateAt([text], st, commands, n, |text|).findings <==>
              f in st.findings || exists j: nat :: j < n && AddsHere([text], StateAt([text], st, commands, j, |text|), commands[j], f)
  {
    hide Judge, AddsHere, SourceOf, NoClose;
    if n == 0 {
      assert commands[..0] == [];
    } else {
      OneLineAdded(text, st, commands, n - 1, f);
      assert commands[..n][..n - 1] == commands[..n - 1];
      HereAdded([text], StateAt([text], st, commands, n - 1, |text|), commands[n - 1], |text|, f);
    }
  }

  lemma BehindAdded(text: string, pending: seq<Heredoc>, f: Finding)
    requires '\n' !in text
    ensures f in CheckText(text, pending, false).0 <==> AddsBehind(text, pending, f)
  {
    hide ScanAt, JudgeAll, BodyLine, SplitLines, AddsHere, AddsInBody;
    NoBreaks(text);
    var lines, st := [text], Check(0, pending, []);
    var r := Round(lines, st, |text|);
    assert CheckFrom(lines, r, |text|) == r;
    assert CheckText(text, pending, false).0 == r.findings + [] == r.findings;
    if pending == [] {
      var commands := ScanAt(lines, 0).commands;
      OneLineAdded(text, st, commands, |commands|, f);
      assert commands[..|commands|] == commands;
    } else {
      BodyAdded(lines, st, f);
    }
  }

  lemma ShiftedAdds(fs: seq<Finding>, c: nat, f: Finding)
    ensures f in Shifted(fs, c) <==> f.line >= c && f.(line := f.line - c) in fs
  {
    if f.line >= c && f.(line := f.line - c) in fs {
      var i :| 0 <= i < |fs| && fs[i] == f.(line := f.line - c);
      assert Shifted(fs, c)[i] == f;
    }
  }

  lemma SpanAdded(lines: seq<string>, st: Check, w: Word, c: nat, k: nat, r: Check, f: Finding)
    requires PlainLines(lines) && Spanned(lines, st, w, c, k, r)
    ensures f in r.findings <==>
              || f in st.findings
              || (SpanHolds(lines, w, st.index, c, k) && f == Finding(w.line, CommandSource))
              || (f.line >= c && AddsBehind(lines[c][k + 1..], st.pending, f.(line := f.line - c)))
  {
    hide CheckText, SpanHolds, AddsBehind;
    var suffix := lines[c][k + 1..];
    BreakFree(lines, c, k + 1);
    ShiftedAdds(CheckText(suffix, st.pending, false).0, c, f);
    if f.line >= c {
      BehindAdded(suffix, st.pending, f.(line := f.line - c));
    }
  }

  lemma BreakFree(lines: seq<string>, c: nat, k: nat)
    requires PlainLines(lines) && c < |lines| && k <= |lines[c]|
    ensures '\n' !in lines[c][k..]
  {
  }

  lemma CommandAdded(lines: seq<string>, st: Check, words: seq<Word>, limit: nat, f: Finding)
    requires WithinLimit(lines, limit) && PlainLines(lines)
    ensures f in Judge(lines, st, words, limit).findings <==> f in st.findings || Adds(lines, st, words, f)
  {
    hide SourceOf, Judge, Takes, Lacks, AsksForSource, ClosesOn, NeverCloses, Spanned, PlainLines, AddsHere, AddsBehind, SpanHolds;
    var s, r := SourceOf(words), Judge(lines, st, words, limit);
    SourceCases(lines, st.index, words);
    if s.Given? && !Whole(s.word) && !NeverCloses(lines, st.index, s.word.openQuote) {
      var c: nat, k: nat :| ClosesOn(lines, st.index, s.word.openQuote, c, k);
      CommandExactly(lines, st, words, limit);
      SpanAdded(lines, st, s.word, c, k, r, f);
      NotHere(lines, st, words, s.word, c, k);
      ClosesOnce(lines, st.index, s.word.openQuote);
    } else {
      HereAdded(lines, st, words, limit, f);
    }
  }

  lemma ClosesOnce(lines: seq<string>, index: nat, quote: Quote)
    ensures forall c: nat, k: nat, d: nat, l: nat :: ClosesOn(lines, index, quote, c, k) && ClosesOn(lines, index, quote, d, l) ==> c == d && k == l
  {
    hide ClosingLine, QuoteClose;
    if index < |lines| {
      ClosingExactly(lines, index, quote);
    }
  }

  lemma NotHere(lines: seq<string>, st: Check, words: seq<Word>, w: Word, c: nat, k: nat)
    requires SourceOf(words).Given? && SourceOf(words).word == w && !Whole(w) && ClosesOn(lines, st.index, w.openQuote, c, k)
    ensures forall f :: !AddsHere(lines, st, words, f)
  {
    hide SourceOf, Takes, Lacks, AsksForSource, NeverCloses, ClosesOn;
    SourceCases(lines, st.index, words);
  }

  // ---------- the rounds of a text ----------

  /** The commands of a round are judged one after the other, each from the state the one
      before it left. */
  lemma StateNext(lines: seq<string>, st: Check, commands: seq<seq<Word>>, j: nat, limit: nat)
    requires WithinLimit(lines, limit) && j < |commands|
    ensures StateAt(lines, st, commands, 0, limit) == st
    ensures StateAt(lines, st, commands, j + 1, limit) == Judge(lines, StateAt(lines, st, commands, j, limit), commands[j], limit)
  {
    hide Judge;
    assert commands[..0] == [];
    assert commands[..j + 1][..j] == commands[..j];
  }

  /** The logical line that starts at `start` ends with line `last`. */
  predicate LogicalLine(lines: seq<string>, start: nat, last: nat) {
    && start <= last < |lines|
    && (forall k :: start <= k < last ==> Continues(lines[k]))
    && (last + 1 < |lines| ==> !Continues(lines[last]))
  }

  lemma {:induction false} LogicalExactly(lines: seq<string>, start: nat)
    requires start < |lines|
    ensures forall last :: LogicalLine(lines, start, last) <==> last == LastJoined(lines, start)
    decreases |lines| - start
  {
    hide Continues;
    if start + 1 == |lines| || !Continues(lines[start]) {
    } else {
      LogicalExactly(lines, start + 1);
      forall last
        ensures LogicalLine(lines, start, last) <==> last == LastJoined(lines, start)
      {
        assert LogicalLine(lines, start, last) <==> last != start && LogicalLine(lines, start + 1, last);
      }
    }
  }

  /** A line of a heredoc's body: the delimiter ends the first heredoc of the queue, any other
      line changes the findings alone. */
  predicate BodyTaken(lines: seq<string>, st: Check, r: Check)
    requires st.index < |lines| && st.pending != []
  {
    if Delimits(st.pending[0], lines[st.index]) then r == Check(st.index + 1, st.pending[1..], st.findings)
    else
      var f := Finding(st.index + 1, HeredocSource);
      r == Check(st.index + 1, st.pending, st.findings + if AddsInBody(lines, st, f) then [f] else [])
  }

  /** A logical line: its commands have been judged, its heredocs joined the queue behind those
      that the commands left, and the checker goes on behind the line, further by as much as
      its sources ran on. */
  predicate LineTaken(lines: seq<string>, st: Check, r: Check, limit: nat)
    requires WithinLimit(lines, limit) && st.index < |lines|
  {
    var scan := ScanAt(lines, st.index);
    var done := StateAt(lines, st, scan.commands, |scan.commands|, limit);
    && r.findings == done.findings && r.pending == done.pending + scan.heredocs
    && exists last: nat :: LogicalLine(lines, st.index, last) && r.index == done.index + (last - st.index) + 1
  }

  /** The rounds of a text: one line at a time while a heredoc is pending, otherwise one logical
      line. */
  lemma RoundExactly(text: string, n: nat)
    ensures Rounds(text, 0) == Check(0, [], [])
    ensures var lines, st, r := SplitLines(text), Rounds(text, n), Rounds(text, n + 1);
            if st.index >= |lines| then r == st
            else if st.pending != [] then BodyTaken(lines, st, r)
            else LineTaken(lines, st, r, |text|)
  {
    hide SplitLines, BodyTaken, LineTaken, Round;
    var lines, st := SplitLines(text), Rounds(text, n);
    if st.index < |lines| {
      if st.pending != [] {
        BodyRound(lines, st, |text|);
      } else {
        CommandRound(lines, st, |text|);
      }
    }
  }

  lemma CommandRound(lines: seq<string>, st: Check, limit: nat)
    requires WithinLimit(lines, limit) && st.index < |lines| && st.pending == []
    ensures LineTaken(lines, st, Round(lines, st, limit), limit)
  {
    hide ScanAt, JudgeAll, LogicalLine, LastJoined;
    LogicalExactly(lines, st.index);
    assert LogicalLine(lines, st.index, LastJoined(lines, st.index));
    var commands := ScanAt(lines, st.index).commands;
    assert commands[..|commands|] == commands;
  }

  lemma BodyRound(lines: seq<string>, st: Check, limit: nat)
    requires WithinLimit(lines, limit) && st.index < |lines| && st.pending != []
    ensures BodyTaken(lines, st, Round(lines, st, limit))
  {
    hide StripTabs, Delimits, Expands, HoldsExpansion;
    DelimitsExactly(st.pending[0], lines[st.index]);
    ExpandsExactly(lines[st.index]);
    assert st.findings + [] == st.findings;
  }

  /** A finding of round `n`. */
  ghost predicate AddsIn(text: string, n: nat, f: Finding) {
    var lines, st := SplitLines(text), Rounds(text, n);
    && st.index < |lines|
    && if st.pending != [] then AddsInBody(lines, st, f)
       else
         var commands := ScanAt(lines, st.index).commands;
         exists j: nat :: j < |commands| && Adds(lines, StateAt(lines, st, commands, j, |text|), commands[j], f)
  }

  /** A finding about a heredoc of an interpreter that is pending when the text ends. */
  predicate AddsAtEnd(text: string, f: Finding) {
    exists h :: h in Rounds(text, |SplitLines(text)|).pending && h.interpreter && f == Finding(h.line, UnterminatedHeredoc)
  }

  lemma {:induction false} CommandsAdded(lines: seq<string>, st: Check, commands: seq<seq<Word>>, n: nat, limit: nat, f: Finding)
    requires WithinLimit(lines, limit) && PlainLines(lines) && n <= |commands|
    ensures f in StateAt(lines, st, commands, n, limit).findings <==>
              f in st.findings || exists j: nat :: j < n && Adds(lines, StateAt(lines, st, commands, j, limit), commands[j], f)
  {
    hide Judge, Adds, PlainLines;
    if n == 0 {
      assert commands[..0] == [];
    } else {
      CommandsAdded(lines, st, commands, n - 1, limit, f);
      StateNext(lines, st, commands, n - 1, limit);
      CommandAdded(lines, StateAt(lines, st, commands, n - 1, limit), commands[n - 1], limit, f);
    }
  }

  lemma RoundAdded(text: string, n: nat, f: Finding)
    ensures f in Rounds(text, n + 1).findings <==> f in Rounds(text, n).findings || AddsIn(text, n, f)
  {
    hide SplitLines, ScanAt, JudgeAll, Adds, AddsInBody, PlainLines, BodyLine;
    var lines, st := SplitLines(text), Rounds(text, n);
    if st.index < |lines| {
      BrokenPlain(text);
      if st.pending != [] {
        BodyAdded(lines, st, f);
      } else {
        var commands := ScanAt(lines, st.index).commands;
        CommandsAdded(lines, st, commands, |commands|, |text|, f);
        assert commands[..|commands|] == commands;
      }
    }
  }

  lemma BrokenPlain(text: string)
    ensures PlainLines(SplitLines(text))
  {
    NoBreakInLines(text);
  }

  lemma {:induction false} RoundsAdded(text: string, n: nat, f: Finding)
    ensures f in Rounds(text, n).findings <==> exists i: nat :: i < n && AddsIn(text, i, f)
  {
    hide Rounds, AddsIn;
    if n == 0 {
      RoundExactly(text, 0);
    } else {
      RoundsAdded(text, n - 1, f);
      RoundAdded(text, n - 1, f);
      if i: nat :| i < n && AddsIn(text, i, f) {
        assert i < n - 1 || AddsIn(text, n - 1, f);
      }
    }
  }

  lemma {:induction false} UnclosedExactly(pending: seq<Heredoc>, f: Finding)
    ensures f in Unclosed(pending) <==> exists h :: h in pending && h.interpreter && f == Finding(h.line, UnterminatedHeredoc)
  {
    if pending == [] {
    } else {
      var n := |pending| - 1;
      UnclosedExactly(pending[..n], f);
      assert pending == pending[..n] + [pending[n]];
    }
  }

  /** Every finding of a text, of whichever kind, and nothing but findings: those that the
      lines of expanding interpreter heredocs and the commands of the rounds add, and one for
      each interpreter heredoc still open when the text ends. */
  lemma FoundExactly(text: string, f: Finding)
    ensures f in CheckText(text, [], true).0 <==> AddsAtEnd(text, f) || exists n: nat :: AddsIn(text, n, f)
  {
    hide SplitLines, Rounds, AddsIn, Unclosed, CheckFrom;
    var lines := SplitLines(text);
    CheckIsRounds(text);
    RoundsAdded(text, |lines|, f);
    UnclosedExactly(Rounds(text, |lines|).pending, f);
    if n: nat :| AddsIn(text, n, f) {
      RoundInText(text, n, f);
    }
  }

  lemma RoundInText(text: string, n: nat, f: Finding)
    requires AddsIn(text, n, f)
    ensures n < |SplitLines(text)|
  {
    hide SplitLines, AllKnown, Beyond, LinesWithin, CheckFrom, ScanAt;
    RoundsJudged(text, n);
  }
}
