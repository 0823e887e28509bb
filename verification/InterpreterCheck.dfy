/** The checker of interpreter sources in shell text: logical lines, the queue of heredocs
    whose bodies follow, and quoted sources that span lines. */
module InterpreterCheck {
  import opened Json
  import opened ShellText
  import opened ShellWords
  import opened ShellCommands
  import opened ShellLines

  datatype Kind = HeredocSource | CommandSource | Unterminated(command: string) | UnterminatedHeredoc

  datatype Finding = Finding(line: nat, kind: Kind)

  /** Where the checker stands, the heredocs whose bodies are still to come, and what it has
      found. */
  datatype Check = Check(index: nat, pending: seq<Heredoc>, findings: seq<Finding>)

  // ---------- lines ----------

  function StripTabs(s: string): string {
    if s != "" && s[0] == '\t' then StripTabs(s[1..]) else s
  }

  /** `/\\\s*$/`. */
  predicate EndsInBackslash(s: string) {
    var t := TrimEnd(s);
    t != "" && t[|t| - 1] == '\\'
  }

  /** Where a quote opened on an earlier line closes on this one, or -1. */
  function QuoteClose(line: string, quote: Quote, i: nat := 0): (k: int)
    requires i <= |line|
    ensures k == -1 || (i <= k < |line| && Closes(quote, line[k]))
    decreases |line| - i
  {
    if i == |line| then -1
    else if line[i] == '\\' then (if i + 2 <= |line| then QuoteClose(line, quote, i + 2) else -1)
    else if Closes(quote, line[i]) then i
    else QuoteClose(line, quote, i + 1)
  }

  method QuoteCloseIndex(line: string, quote: Quote) returns (k: int)
    ensures k == QuoteClose(line, quote)
  {
    var index := 0;
    while index < |line|
      invariant index <= |line| + 1
      invariant QuoteClose(line, quote) == if index <= |line| then QuoteClose(line, quote, index) else -1
    {
      if line[index] == '\\' {
        index := index + 2;
        continue;
      }
      if Closes(quote, line[index]) {
        return index;
      }
      index := index + 1;
    }
    return -1;
  }

  predicate Expands(s: string) {
    Findings(s) != []
  }

  // ---------- the source of one command ----------

  datatype Source = NoSource | Missing(command: string) | Given(command: string, word: Word)

  predicate IsSourceFlag(text: string) {
    text == "-c" || text == "-e" || text == "--eval" || StartsWith(text, "--eval=", 0)
  }

  function FirstFlag(words: seq<Word>, from: nat): (i: nat)
    requires from <= |words|
    ensures from <= i <= |words|
    ensures i < |words| ==> IsSourceFlag(words[i].text)
    decreases |words| - from
  {
    if from == |words| || IsSourceFlag(words[from].text) then from else FirstFlag(words, from + 1)
  }

  /** The word an interpreter command takes as its source. */
  function SourceOf(words: seq<Word>): Source {
    var executable := DirectInterpreterIndex(words);
    if executable < 0 then NoSource
    else
      var command := words[executable].text;
      var flag := FirstFlag(words, executable + 1);
      if flag == |words| then NoSource
      else if StartsWith(words[flag].text, "--eval=", 0) then Given(command, words[flag].(text := words[flag].text[7..]))
      else if flag + 1 < |words| then Given(command, words[flag + 1])
      else Missing(command)
  }

  predicate IsComplete(s: Source) {
    s.Given? && s.word.text != "" && s.word.Closed()
  }

  /** The first line from `from` on that closes the quote, or the number of lines. */
  function ClosingLine(lines: seq<string>, from: nat, quote: Quote): (c: nat)
    requires from <= |lines|
    ensures from <= c <= |lines|
    ensures c < |lines| ==> QuoteClose(lines[c], quote) >= 0
    decreases |lines| - from
  {
    if from == |lines| || QuoteClose(lines[from], quote) >= 0 then from else ClosingLine(lines, from + 1, quote)
  }

  /** The first line from `from` on that does not end in a backslash, or the number of
      lines. */
  function LastContinued(lines: seq<string>, from: nat): (c: nat)
    requires from <= |lines|
    ensures from <= c <= |lines|
    decreases |lines| - from
  {
    if from == |lines| || !EndsInBackslash(lines[from]) then from else LastContinued(lines, from + 1)
  }

  predicate SomeExpands(lines: seq<string>, from: nat, end: nat)
    requires from <= end <= |lines|
  {
    exists k :: from <= k < end && Expands(lines[k])
  }

  /** Whether a source that spans lines holds an expansion: on its first line, or outside
      single quotes on the others, up to the closing quote. */
  predicate SpanExpands(lines: seq<string>, word: Word, from: nat, c: nat)
    requires from <= c < |lines| && QuoteClose(lines[c], word.openQuote) >= 0
  {
    || word.expandable != []
    || (word.openQuote != Single &&
        (SomeExpands(lines, from, c) || Expands(lines[c][..QuoteClose(lines[c], word.openQuote)])))
  }

  // ---------- the checker as a function ----------

  function Shifted(fs: seq<Finding>, offset: nat): (r: seq<Finding>)
    ensures |r| == |fs| && forall i :: 0 <= i < |fs| ==> r[i] == fs[i].(line := fs[i].line + offset)
  {
    seq(|fs|, i requires 0 <= i < |fs| => fs[i].(line := fs[i].line + offset))
  }

  function Report(st: Check, line: nat, kind: Kind): Check {
    st.(findings := st.findings + [Finding(line, kind)])
  }

  predicate WithinLimit(lines: seq<string>, limit: nat) {
    forall i :: 0 <= i < |lines| ==> |lines[i]| <= limit
  }

  /** A source that is missing, empty or not closed on its own line. */
  function JudgeIncomplete(lines: seq<string>, st: Check, s: Source, limit: nat): (r: Check)
    requires WithinLimit(lines, limit) && (s.Missing? || s.Given?)
    ensures r.index >= st.index
    decreases limit, 0
  {
    var from := st.index + 1;
    if s.Given? && s.word.openQuote != NoQuote && from <= |lines| && ClosingLine(lines, from, s.word.openQuote) < |lines| then
      var c := ClosingLine(lines, from, s.word.openQuote);
      var st1 := if SpanExpands(lines, s.word, from, c) then Report(st, s.word.line, CommandSource) else st;
      var suffix := lines[c][QuoteClose(lines[c], s.word.openQuote) + 1..];
      var (found, pending) := CheckText(suffix, st.pending, false);
      Check(c, pending, st1.findings + Shifted(found, c))
    else if st.index < |lines| && EndsInBackslash(lines[st.index]) then
      var c := LastContinued(lines, from);
      var expanded := (s.Given? && s.word.expandable != []) || SomeExpands(lines, from, c) || (c < |lines| && Expands(lines[c]));
      Report(st, st.index + 1, if expanded then CommandSource else Unterminated(s.command)).(index := c)
    else Report(st, st.index + 1, Unterminated(s.command))
  }

  function Judge(lines: seq<string>, st: Check, words: seq<Word>, limit: nat): (r: Check)
    requires WithinLimit(lines, limit)
    ensures r.index >= st.index
    decreases limit, 1
  {
    var s := SourceOf(words);
    if s.NoSource? then st
    else if !IsComplete(s) then JudgeIncomplete(lines, st, s, limit)
    else if s.word.expandable != [] then Report(st, s.word.line, CommandSource)
    else st
  }

  function JudgeAll(lines: seq<string>, st: Check, commands: seq<seq<Word>>, limit: nat): (r: Check)
    requires WithinLimit(lines, limit)
    ensures r.index >= st.index
    decreases limit, 2, |commands|
  {
    if commands == [] then st
    else Judge(lines, JudgeAll(lines, st, commands[..|commands| - 1], limit), commands[|commands| - 1], limit)
  }

  /** The last physical line of the logical line that starts at `start`. */
  function LastJoined(lines: seq<string>, start: nat): (last: nat)
    requires start < |lines|
    ensures Joins(lines, start, last)
    ensures last + 1 == |lines| || !Continues(lines[last])
    decreases |lines| - start
  {
    if start + 1 < |lines| && Continues(lines[start]) then LastJoined(lines, start + 1) else start
  }

  function StartsOf(pieces: seq<string>): seq<nat> {
    seq(|pieces|, i requires 0 <= i < |pieces| => BeginOf(pieces, i))
  }

  /** The scan of the logical line that starts at `start`. */
  function ScanAt(lines: seq<string>, start: nat): CommandScan
    requires start < |lines|
  {
    var pieces := Pieces(lines, start, LastJoined(lines, start));
    Relabel(LineAt(start, StartsOf(pieces)), Scan(Concat(pieces)))
  }

  /** One line of a heredoc body. */
  function BodyLine(lines: seq<string>, st: Check): Check
    requires st.index < |lines| && st.pending != []
  {
    var here, line := st.pending[0], lines[st.index];
    var body := if here.stripTabs then StripTabs(line) else line;
    if body == here.delimiter then Check(st.index + 1, st.pending[1..], st.findings)
    else if here.interpreter && here.expanding && Expands(line) then Report(st, st.index + 1, HeredocSource).(index := st.index + 1)
    else st.(index := st.index + 1)
  }

  /** One round of the checker: a line of a heredoc body, or a logical line with its commands
      and the heredocs it opens. */
  function Round(lines: seq<string>, st: Check, limit: nat): (r: Check)
    requires WithinLimit(lines, limit) && st.index < |lines|
    ensures r.index > st.index
    decreases limit, 3
  {
    if st.pending != [] then BodyLine(lines, st)
    else
      var scan := ScanAt(lines, st.index);
      var judged := JudgeAll(lines, st, scan.commands, limit);
      Check(judged.index + (LastJoined(lines, st.index) - st.index) + 1, judged.pending + scan.heredocs, judged.findings)
  }

  function CheckFrom(lines: seq<string>, st: Check, limit: nat): Check
    requires WithinLimit(lines, limit)
    decreases limit, 4, if st.index < |lines| then |lines| - st.index else 0
  {
    if st.index >= |lines| then st else CheckFrom(lines, Round(lines, st, limit), limit)
  }

  function Unclosed(pending: seq<Heredoc>): seq<Finding> {
    if pending == [] then []
    else
      var h := pending[|pending| - 1];
      Unclosed(pending[..|pending| - 1]) + (if h.interpreter then [Finding(h.line, UnterminatedHeredoc)] else [])
  }

  /** The findings in a text, and the heredocs it leaves pending. */
  function CheckText(text: string, inherited: seq<Heredoc>, finalize: bool): (seq<Finding>, seq<Heredoc>)
    decreases |text|, 5
  {
    var r := CheckFrom(SplitLines(text), Check(0, inherited, []), |text|);
    (r.findings + (if finalize then Unclosed(r.pending) else []), r.pending)
  }

  // ---------- the checker as loops ----------

  lemma LastUnique(lines: seq<string>, start: nat, last: nat)
    requires Joins(lines, start, last)
    requires last + 1 == |lines| || !Continues(lines[last])
    ensures last == LastJoined(lines, start)
    decreases last - start
  {
    hide Continues;
    if start >= last {
    } else {
      LastUnique(lines, start + 1, last);
    }
  }

  lemma RecordedStarts(pieces: seq<string>, starts: seq<nat>)
    requires Recorded(pieces, starts)
    ensures starts == StartsOf(pieces)
  {
  }

  method ScanLine(lines: seq<string>, start: nat) returns (scan: CommandScan, consumed: nat)
    requires start < |lines|
    ensures scan == ScanAt(lines, start) && consumed == LastJoined(lines, start) - start + 1
  {
    hide Continues, Pieces, Concat, Scan, Recorded, LineAt;
    var text, joined, starts := JoinedContinuation(lines, start);
    consumed := joined;
    LastUnique(lines, start, start + consumed - 1);
    RecordedStarts(Pieces(lines, start, start + consumed - 1), starts);
    scan := CommandsOnLine(text, LineAt(start, starts));
  }

  method FindClosingLine(lines: seq<string>, from: nat, quote: Quote) returns (c: nat)
    requires from <= |lines|
    ensures c == ClosingLine(lines, from, quote)
  {
    c := from;
    while c < |lines|
      invariant from <= c <= |lines|
      invariant ClosingLine(lines, c, quote) == ClosingLine(lines, from, quote)
    {
      var closing := QuoteCloseIndex(lines[c], quote);
      if closing >= 0 {
        break;
      }
      c := c + 1;
    }
  }

  /** Follows a source whose quote is still open to the line that closes it, and checks what
      comes after the quote by a check of its own on a strictly shorter text. */
  method JudgeSpan(lines: seq<string>, st: Check, word: Word, c: nat, ghost limit: nat) returns (r: Check)
    requires WithinLimit(lines, limit) && st.index + 1 <= c < |lines| && QuoteClose(lines[c], word.openQuote) >= 0
    ensures var st1 := if SpanExpands(lines, word, st.index + 1, c) then Report(st, word.line, CommandSource) else st;
            var (found, pending) := CheckText(lines[c][QuoteClose(lines[c], word.openQuote) + 1..], st.pending, false);
            r == Check(c, pending, st1.findings + Shifted(found, c))
    decreases limit, 0
  {
    hide CheckText, SpanExpands, Shifted, QuoteClose;
    var close := QuoteCloseIndex(lines[c], word.openQuote);
    var findings := st.findings;
    if SpanExpands(lines, word, st.index + 1, c) {
      findings := findings + [Finding(word.line, CommandSource)];
    }
    var suffix := lines[c][close + 1..];
    var found, pending := CheckInterpreterSource(suffix, st.pending, false);
    r := Check(c, pending, findings + Shifted(found, c));
  }

  /** Follows a source over the lines that end in a backslash. */
  method JudgeContinued(lines: seq<string>, st: Check, s: Source) returns (r: Check)
    requires s.Missing? || s.Given?
    requires st.index < |lines|
    ensures var from := st.index + 1;
            var c := LastContinued(lines, from);
            var expanded := (s.Given? && s.word.expandable != []) || SomeExpands(lines, from, c) || (c < |lines| && Expands(lines[c]));
            r == Report(st, st.index + 1, if expanded then CommandSource else Unterminated(s.command)).(index := c)
  {
    hide EndsInBackslash, Expands;
    var from := st.index + 1;
    var c := from;
    var expanded := s.Given? && s.word.expandable != [];
    while c < |lines| && EndsInBackslash(lines[c])
      invariant from <= c <= |lines|
      invariant LastContinued(lines, c) == LastContinued(lines, from)
      invariant expanded <==> (s.Given? && s.word.expandable != []) || SomeExpands(lines, from, c)
    {
      expanded := expanded || Expands(lines[c]);
      c := c + 1;
    }
    expanded := expanded || (c < |lines| && Expands(lines[c]));
    r := Report(st, st.index + 1, if expanded then CommandSource else Unterminated(s.command)).(index := c);
  }

  method JudgeCommand(lines: seq<string>, st: Check, words: seq<Word>, ghost limit: nat) returns (r: Check)
    requires WithinLimit(lines, limit)
    ensures r == Judge(lines, st, words, limit)
    decreases limit, 1
  {
    hide SourceOf, CheckText, SpanExpands, SomeExpands, Shifted, EndsInBackslash, Expands, QuoteClose, ClosingLine, LastContinued;
    var s := SourceOf(words);
    if s.NoSource? {
      return st;
    }
    if IsComplete(s) {
      return if s.word.expandable != [] then Report(st, s.word.line, CommandSource) else st;
    }
    if s.Given? && s.word.openQuote != NoQuote && st.index + 1 <= |lines| {
      var c := FindClosingLine(lines, st.index + 1, s.word.openQuote);
      if c < |lines| {
        r := JudgeSpan(lines, st, s.word, c, limit);
        return;
      }
    }
    if st.index < |lines| && EndsInBackslash(lines[st.index]) {
      r := JudgeContinued(lines, st, s);
      return;
    }
    return Report(st, st.index + 1, Unterminated(s.command));
  }

  /** The checker.  Its recursion is on strictly shorter texts, so it ends on every input. */
  method CheckInterpreterSource(text: string, inherited: seq<Heredoc>, finalize: bool)
    returns (findings: seq<Finding>, pending: seq<Heredoc>)
    ensures (findings, pending) == CheckText(text, inherited, finalize)
    decreases |text|, 2
  {
    hide Judge, ScanAt, BodyLine, Expands, EndsInBackslash, SplitLines;
    var lines := SplitLines(text);
    var st := Check(0, inherited, []);
    while st.index < |lines|
      invariant CheckFrom(lines, st, |text|) == CheckFrom(lines, Check(0, inherited, []), |text|)
      decreases |lines| - st.index
    {
      ghost var before := st;
      if st.pending != [] {
        st := ReadBodyLine(lines, st);
      } else {
        var scan, consumed := ScanLine(lines, st.index);
        for k := 0 to |scan.commands|
          invariant st == JudgeAll(lines, before, scan.commands[..k], |text|)
        {
          assert scan.commands[..k + 1][..k] == scan.commands[..k];
          st := JudgeCommand(lines, st, scan.commands[k], |text|);
        }
        assert scan.commands[..|scan.commands|] == scan.commands;
        st := Check(st.index + (consumed - 1) + 1, st.pending + scan.heredocs, st.findings);
      }
      assert st == Round(lines, before, |text|);
    }
    assert st == CheckFrom(lines, Check(0, inherited, []), |text|);
    findings, pending := st.findings, st.pending;
    if finalize {
      findings := findings + Unclosed(pending);
    } else {
      assert findings == findings + [];
    }
  }

  method ReadBodyLine(lines: seq<string>, st: Check) returns (r: Check)
    requires st.index < |lines| && st.pending != []
    ensures r == BodyLine(lines, st)
  {
    var here := st.pending[0];
    var body := if here.stripTabs then StripTabs(lines[st.index]) else lines[st.index];
    if body == here.delimiter {
      return Check(st.index + 1, st.pending[1..], st.findings);
    }
    if here.interpreter && here.expanding {
      var found := FindingsIn(lines[st.index]);
      if found != [] {
        return Check(st.index + 1, st.pending, st.findings + [Finding(st.index + 1, HeredocSource)]);
      }
    }
    return Check(st.index + 1, st.pending, st.findings);
  }

  // ---------- heredoc bodies are data ----------

  predicate Ends(here: Heredoc, line: string) {
    (if here.stripTabs then StripTabs(line) else line) == here.delimiter
  }

  /** The body lines of an expanding interpreter heredoc that hold an expansion. */
  function BodyFindings(lines: seq<string>, here: Heredoc, from: nat, end: nat): seq<Finding>
    requires from <= end <= |lines|
    decreases end
  {
    if from == end then []
    else
      BodyFindings(lines, here, from, end - 1) +
      (if here.interpreter && here.expanding && Expands(lines[end - 1]) then [Finding(end, HeredocSource)] else [])
  }

  /** Until its delimiter comes, every line belongs to the first pending heredoc: nothing in
      it is read as a command, the queue stays as it is, and the findings are exactly the
      expansions of an expanding interpreter body, each at its own line. */
  lemma {:induction false} BodyIsData(lines: seq<string>, st: Check, end: nat, limit: nat)
    requires WithinLimit(lines, limit) && st.pending != [] && st.index <= end <= |lines|
    requires forall k :: st.index <= k < end ==> !Ends(st.pending[0], lines[k])
    ensures CheckFrom(lines, st, limit) ==
            CheckFrom(lines, Check(end, st.pending, st.findings + BodyFindings(lines, st.pending[0], st.index, end)), limit)
    decreases end
  {
    hide Expands, StripTabs;
    if end == st.index {
      assert st.findings + [] == st.findings;
    } else {
      BodyIsData(lines, st, end - 1, limit);
      var before := Check(end - 1, st.pending, st.findings + BodyFindings(lines, st.pending[0], st.index, end - 1));
      assert !Ends(st.pending[0], lines[end - 1]);
      assert Round(lines, before, limit) ==
             Check(end, st.pending, st.findings + BodyFindings(lines, st.pending[0], st.index, end));
    }
  }
}
