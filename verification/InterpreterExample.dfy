/** A text whose expansion the checker reports, and two on which it names a wrong line: one
    that the text does not have, and one on which the heredoc in question does not stand. */
module InterpreterExample {
  import opened Json
  import opened ShellText
  import opened ShellWords
  import opened ShellCommands
  import opened ShellPlaces
  import opened ShellLines
  import opened InterpreterCheck
  import opened FindingLines
  import opened SourceText

  // ---------- words without shell syntax ----------

  predicate IsPlain(c: char) {
    !IsSpace(c) && !IsOperator(c) && !IsQuote(c) && c != '\\' && c != '$' && c != '(' && c != ')'
  }

  /** `text[start..end]` is a whole word in which no character means anything to the shell. */
  predicate PlainWord(text: string, start: nat, end: nat) {
    && start < end <= |text|
    && (forall k :: start <= k < end ==> IsPlain(text[k]))
    && (end < |text| ==> IsSpace(text[end]) || IsOperator(text[end]))
  }

  lemma {:induction false} PlainRun(text: string, start: nat, end: nat, r: Reader)
    requires PlainWord(text, start, end) && start <= r.index <= end
    requires Reading(text, start, r) && r == Begin(start).(index := r.index, value := text[start..r.index], expandable := r.expandable)
    ensures var r' := Run(text, start, r);
            r'.index == end && r'.value == text[start..end] && r'.quote == NoQuote && r'.regions == [] && r'.regionStart == -1
    decreases end - r.index
  {
    hide Reading, IsSpace, IsOperator;
    if r.index >= end {
    } else {
      assert IsPlain(text[r.index]);
      StartsAt(text, "$((", r.index, 0);
      AdvanceKeepsReading(text, start, r);
      var s := Advance(text, start, r);
      assert s.value == text[start..r.index + 1];
      PlainRun(text, start, end, s);
    }
  }

  lemma PlainRead(text: string, start: nat, end: nat)
    requires PlainWord(text, start, end)
    ensures var (w, next) := ReadWord(text, start);
            next == end && w.text == text[start..end] && w.regions == []
  {
    hide Reading, IsSpace, IsOperator, IsPlain;
    BeginReading(text, start);
    assert text[start..start] == "";
    PlainRun(text, start, end, Begin(start));
  }

  lemma {:induction false} NoRedirection(text: string, from: nat, k: nat)
    requires from < |text| && text[from] !in "&<>" && k <= |REDIRECTIONS|
    ensures RedirectionAt(text, from, k) == 0
    decreases |REDIRECTIONS| - k
  {
    if k >= |REDIRECTIONS| {
    } else {
      var operator := REDIRECTIONS[k];
      assert operator != "" && operator[0] in "&<>";
      StartsAt(text, operator, from, 0);
      NoRedirection(text, from, k + 1);
    }
  }

  /** A plain word that is neither a number nor a comment is an argument. */
  lemma PlainToken(text: string, start: nat, end: nat)
    requires PlainWord(text, start, end) && text[start] != '#' && !IsDigit(text[start])
    ensures var t := TokenAt(text, start);
            t.Argument? && t.next == end && t.word.text == text[start..end] && t.word.regions == []
  {
    hide ReadWord, IndexOf, IsSpace;
    assert IsPlain(text[start]);
    PlainRead(text, start, end);
    NoRedirection(text, start, 0);
    assert RunEnd(text, start, IsDigit) == start;
    StartsAt(text, "<<<", start, 0);
    StartsAt(text, "<<", start, 0);
    StartsAt(text, "((", start, 0);
  }

  // ---------- the text ----------

  const TEXT := "node -c;node -c #\\"

  /** A plain word, spaces before it apart, joins the command being collected. */
  lemma WordStep(text: string, cursor: nat, start: nat, end: nat, acc: Collected) returns (next: Collected, w: Word)
    requires cursor <= start && PlainWord(text, start, end) && text[start] != '#' && !IsDigit(text[start]) && acc.Valid()
    requires forall k :: cursor <= k < start ==> IsSpace(text[k])
    ensures next.Valid() && Collect(text, cursor, acc) == Collect(text, end, next)
    ensures w.text == text[start..end]
    ensures next == acc.(commands := PushWord(acc.commands, w))
  {
    hide TokenAt, IsSpace, IsOperator, IsDigit;
    PlainToken(text, start, end);
    assert IsPlain(text[start]);
    assert SkipSpaces(text, cursor) == start;
    var t := TokenAt(text, start);
    next, w := Add(acc, t, CommandScan([], [])), t.word;
    assert ScanRegions(RegionsOf(t), |text|) == CommandScan([], []);
  }

  lemma SeparatorStep(text: string, cursor: nat, acc: Collected)
    requires cursor + 1 < |text| && text[cursor] == ';' && !IsSeparator(text[cursor + 1]) && acc.Valid()
    ensures Collect(text, cursor, acc) == Collect(text, cursor + 1, acc.(commands := acc.commands + [[]]))
  {
    hide ReadWord, IndexOf;
    NoRedirection(text, cursor, 0);
    assert RunEnd(text, cursor, IsDigit) == cursor;
    StartsAt(text, "<<<", cursor, 0);
    StartsAt(text, "<<", cursor, 0);
    assert RunEnd(text, cursor, IsSeparator) == cursor + 1;
    assert TokenAt(text, cursor) == Separator(cursor + 1);
    assert ScanRegions([], |text|) == CommandScan([], []);
  }

  lemma CommentStep(text: string, cursor: nat, start: nat, acc: Collected)
    requires cursor <= start < |text| && text[start] == '#' && acc.Valid()
    requires forall k :: cursor <= k < start ==> IsSpace(text[k])
    ensures Collect(text, cursor, acc) == acc
  {
    assert SkipSpaces(text, cursor) == start;
  }

  /** Two commands that both lack a source. */
  lemma Scanned() returns (a: seq<Word>, b: seq<Word>)
    ensures Scan(TEXT) == CommandScan([a, b], [])
    ensures |a| == |b| == 2 && a[0].text == b[0].text == "node" && a[1].text == b[1].text == "-c"
  {
    hide Collect, TokenAt, Add, PlainWord, NonEmpty, IsSpace, IsDigit, IsSeparator, Conclude;
    Words();
    var c1, w1 := WordStep(TEXT, 0, 0, 4, START);
    var c2, w2 := WordStep(TEXT, 4, 5, 7, c1);
    SeparatorStep(TEXT, 7, c2);
    var c3 := c2.(commands := c2.commands + [[]]);
    var c4, w3 := WordStep(TEXT, 8, 8, 12, c3);
    var c5, w4 := WordStep(TEXT, 12, 13, 15, c4);
    CommentStep(TEXT, 15, 16, c5);
    a, b := [w1, w2], [w3, w4];
    PushTwice([], w1, w2);
    assert [] + [[]] == START.commands && [] + [a] == [a];
    PushTwice([a], w3, w4);
    assert c5 == Collected([a, b], [], []);
    ConcludeTwo(a, b);
  }

  lemma PushTwice(before: seq<seq<Word>>, v: Word, w: Word)
    ensures PushWord(PushWord(before + [[]], v), w) == before + [[v, w]]
  {
    assert [] + [v] == [v] && [v] + [w] == [v, w];
    assert PushWord(before + [[]], v) == before + [[v]];
  }

  lemma Words()
    ensures TEXT[0..4] == TEXT[8..12] == "node" && TEXT[5..7] == TEXT[13..15] == "-c"
    ensures PlainWord(TEXT, 0, 4) && PlainWord(TEXT, 5, 7) && PlainWord(TEXT, 8, 12) && PlainWord(TEXT, 13, 15)
    ensures IsSpace(TEXT[4]) && TEXT[7] == ';' && !IsSeparator(TEXT[8]) && IsSpace(TEXT[12]) && IsSpace(TEXT[15])
    ensures !IsDigit(TEXT[0]) && !IsDigit(TEXT[5]) && !IsDigit(TEXT[8]) && !IsDigit(TEXT[13])
  {
    hide IsPlain, IsOperator;
    PlainLetters();
  }

  lemma PlainLetters()
    ensures IsPlain('n') && IsPlain('o') && IsPlain('d') && IsPlain('e') && IsPlain('-') && IsPlain('c') && IsOperator(';')
  {
  }

  lemma ConcludeTwo(a: seq<Word>, b: seq<Word>)
    requires a != [] && b != []
    ensures Conclude(Collected([a, b], [], [])) == CommandScan([a, b], [])
  {
    assert [a][..0] == [] && NonEmpty([a]) == [a];
    assert [a, b][..1] == [a] && NonEmpty([a, b]) == [a, b];
    assert [a, b] + [] == [a, b];
  }

  lemma LacksSource(words: seq<Word>)
    requires |words| == 2 && words[0].text == "node" && words[1].text == "-c"
    ensures SourceOf(words) == Missing("node")
  {
    assert !IsAssignment("node");
    assert DirectInterpreterIndex(words) == 0;
    assert FirstFlag(words, 1) == 1;
    StartsAt(words[1].text, "--eval=", 0, 1);
  }

  lemma OnlyLineScan(text: string)
    ensures ScanAt([text], 0) == Relabel(LineAt(0, [0]), Scan(text))
  {
    hide Scan, Continues, Concat;
    JoinOne([text], 0);
    assert StartsOf([text]) == [0] by {
      BeginAndEnd([text]);
    }
  }

  lemma Finished(text: string, lines: seq<string>, r: Check)
    requires lines == SplitLines(text) && Round(lines, Check(0, [], []), |text|) == r && r.index >= |lines|
    ensures forall finalize :: CheckText(text, [], finalize) == (r.findings + (if finalize then Unclosed(r.pending) else []), r.pending)
  {
    hide SplitLines, Round;
    assert CheckFrom(lines, Check(0, [], []), |text|) == CheckFrom(lines, r, |text|) == r;
  }

  /** The text is one line long, and the checker reports its second finding on line two. */
  lemma OverrunExample()
    ensures SplitLines(TEXT) == [TEXT]
    ensures CheckText(TEXT, [], true).0 == [Finding(1, Unterminated("node")), Finding(2, Unterminated("node"))]
  {
    hide Scan, Judge, JudgeAll, SourceOf, EndsInBackslash, Concat, ScanAt, CheckText, SplitLines, LineAt;
    NoBreaks(TEXT);
    var lines, st := [TEXT], Check(0, [], []);
    var a, b := Scanned();
    OnlyLineScan(TEXT);
    var scan, f := ScanAt(lines, 0), LineAt(0, [0]);
    assert scan.commands == [RelabelCommand(f, a), RelabelCommand(f, b)];
    assert scan.heredocs == [];
    LacksSource(scan.commands[0]);
    LacksSource(scan.commands[1]);
    TextEnds();
    OverrunHappens(lines, st, scan.commands[0], scan.commands[1], |TEXT|);
    Finished(TEXT, lines, Round(lines, st, |TEXT|));
    NoQueue(lines, st, scan.commands, |TEXT|);
  }

  lemma NoQueue(lines: seq<string>, st: Check, commands: seq<seq<Word>>, limit: nat)
    requires lines == [TEXT] && WithinLimit(lines, limit) && st == Check(0, [], [])
    ensures JudgeAll(lines, st, commands, limit).pending == []
  {
    hide Judge;
    assert |lines[0]| <= limit;
    OneLineQueue(TEXT, st, commands, limit);
  }

  lemma TextEnds()
    ensures EndsInBackslash(TEXT)
  {
    assert TrimEnd(TEXT) == TEXT;
  }

  // ---------- a source that spans two lines, and a heredoc behind it ----------

  const SPAN := "python -c 'a"
  const CLOSING := "b'; python <<E"
  const SUFFIX := "; python <<E"

  /** A word whose first character opens a single quote that the text does not close. */
  predicate OpenWord(text: string, start: nat) {
    && start < |text| && text[start] == '\''
    && forall k :: start < k < |text| ==> IsPlain(text[k])
  }

  lemma {:induction false} OpenRun(text: string, start: nat, r: Reader)
    requires OpenWord(text, start) && start < r.index <= |text| && Reading(text, start, r)
    requires r == Begin(start).(index := r.index, quote := Single, value := text[start + 1..r.index])
    ensures var r' := Run(text, start, r);
            && r'.index == |text| && r'.value == text[start + 1..] && r'.quote == Single
            && r'.expandable == "" && r'.regions == [] && r'.regionStart == -1
    decreases |text| - r.index
  {
    hide Reading, IsSpace, IsOperator;
    if r.index == |text| {
    } else {
      assert IsPlain(text[r.index]);
      StartsAt(text, "$((", r.index, 0);
      AdvanceKeepsReading(text, start, r);
      var s := Advance(text, start, r);
      assert s.value == text[start + 1..r.index + 1];
      OpenRun(text, start, s);
    }
  }

  lemma OpenRead(text: string, start: nat)
    requires OpenWord(text, start)
    ensures var (w, next) := ReadWord(text, start);
            next == |text| && w.text == text[start + 1..] && w.regions == [] && w.openQuote == Single && w.expandable == []
  {
    hide Reading, IsSpace, IsOperator, IsPlain;
    BeginReading(text, start);
    var b := Begin(start);
    QuoteIsNoSpace(text, start);
    AdvanceKeepsReading(text, start, b);
    var r := Advance(text, start, b);
    assert text[start + 1..start + 1] == "";
    OpenRun(text, start, r);
    assert Run(text, start, b) == Run(text, start, r);
    assert Findings("") == [];
  }

  lemma QuoteIsNoSpace(text: string, start: nat)
    requires start < |text| && text[start] == '\''
    ensures !Stops(text, Begin(start))
  {
  }

  lemma OpenToken(text: string, start: nat)
    requires OpenWord(text, start)
    ensures var t := TokenAt(text, start);
            && t.Argument? && t.next == |text| && t.word.text == text[start + 1..]
            && t.word.regions == [] && t.word.openQuote == Single && t.word.expandable == []
  {
    hide ReadWord, IndexOf, IsSpace, OpenWord;
    assert text[start] == '\'' by {
      OpenStart(text, start);
    }
    OpenRead(text, start);
    NoRedirection(text, start, 0);
    assert RunEnd(text, start, IsDigit) == start;
    StartsAt(text, "<<<", start, 0);
    StartsAt(text, "<<", start, 0);
    StartsAt(text, "((", start, 0);
  }

  lemma OpenStart(text: string, start: nat)
    requires OpenWord(text, start)
    ensures start < |text| && text[start] == '\''
  {
  }

  lemma OpenStep(text: string, cursor: nat, start: nat, acc: Collected) returns (next: Collected, w: Word)
    requires cursor <= start && OpenWord(text, start) && acc.Valid()
    requires forall k :: cursor <= k < start ==> IsSpace(text[k])
    ensures next.Valid() && Collect(text, cursor, acc) == next
    ensures w.text == text[start + 1..] && w.openQuote == Single && w.expandable == []
    ensures next == acc.(commands := PushWord(acc.commands, w))
  {
    hide TokenAt, IsDigit, OpenWord;
    OpenStart(text, start);
    OpenToken(text, start);
    assert SkipSpaces(text, cursor) == start;
    var t := TokenAt(text, start);
    next, w := Add(acc, t, CommandScan([], [])), t.word;
    assert ScanRegions(RegionsOf(t), |text|) == CommandScan([], []);
  }

  lemma SpanWords()
    ensures SPAN[0..6] == "python" && SPAN[7..9] == "-c" && SPAN[11..] == "a"
    ensures PlainWord(SPAN, 0, 6) && PlainWord(SPAN, 7, 9) && OpenWord(SPAN, 10)
    ensures IsSpace(SPAN[6]) && IsSpace(SPAN[9]) && !IsDigit(SPAN[0]) && !IsDigit(SPAN[7])
  {
    hide IsPlain, IsOperator;
    MorePlainLetters();
  }

  lemma MorePlainLetters()
    ensures IsPlain('p') && IsPlain('y') && IsPlain('t') && IsPlain('h') && IsPlain('o') && IsPlain('n')
    ensures IsPlain('-') && IsPlain('c') && IsPlain('a') && IsPlain('E') && IsPlain('3')
  {
  }

  /** `python -c` with a source whose quote stays open. */
  lemma SpanScanned() returns (a: seq<Word>)
    ensures Scan(SPAN) == CommandScan([a], [])
    ensures |a| == 3 && a[0].text == "python" && a[1].text == "-c"
    ensures a[2].text == "a" && a[2].openQuote == Single && a[2].expandable == []
  {
    hide Collect, TokenAt, Add, PlainWord, OpenWord, NonEmpty, IsSpace, IsDigit, Conclude;
    SpanWords();
    var c1, w1 := WordStep(SPAN, 0, 0, 6, START);
    var c2, w2 := WordStep(SPAN, 6, 7, 9, c1);
    var c3, w3 := OpenStep(SPAN, 9, 10, c2);
    a := [w1, w2, w3];
    PushTwice([], w1, w2);
    assert [] + [[]] == START.commands && [] + [[w1, w2]] == [[w1, w2]];
    assert [w1, w2] + [w3] == a;
    assert c3 == Collected([a], [], []);
    ConcludeOne(a);
  }

  lemma ConcludeOne(a: seq<Word>)
    requires a != []
    ensures Conclude(Collected([a], [], [])) == CommandScan([a], [])
  {
    assert [a][..0] == [] && [a] + [] == [a];
    assert NonEmpty([a]) == [a];
  }

  lemma DelimiterStep(text: string, cursor: nat, start: nat, acc: Collected) returns (next: Collected, w: Word)
    requires cursor <= start && start + 2 < |text| && text[start] == '<' && text[start + 1] == '<'
    requires PlainWord(text, start + 2, |text|) && text[start + 2] != '-' && acc.Valid()
    requires forall k :: cursor <= k < start ==> IsSpace(text[k])
    ensures next.Valid() && Collect(text, cursor, acc) == next && w.line == start + 2
    ensures next == acc.(heredocs := acc.heredocs + [Own(NewHeredoc(w, false), |acc.commands| - 1)])
  {
    hide ReadWord, NewHeredoc, RedirectionEnd, IndexOf;
    assert IsPlain(text[start + 2]);
    assert SkipSpaces(text, cursor) == start && SkipSpaces(text, start + 2) == start + 2;
    StartsAt(text, "<<<", start, 2);
    assert text[start..start + 2] == "<<";
    PlainRead(text, start + 2, |text|);
    var t := TokenAt(text, start);
    assert t == Delimiting(ReadWord(text, start + 2).0, false, |text|);
    w := t.word;
    next := Add(acc, t, CommandScan([], []));
    assert ScanRegions(RegionsOf(t), |text|) == CommandScan([], []);
  }

  lemma SuffixWords()
    ensures SUFFIX[2..8] == "python" && PlainWord(SUFFIX, 2, 8) && PlainWord(SUFFIX, 11, |SUFFIX|)
    ensures SUFFIX[0] == ';' && !IsSeparator(SUFFIX[1]) && IsSpace(SUFFIX[1]) && IsSpace(SUFFIX[8]) && !IsDigit(SUFFIX[2])
    ensures SUFFIX[9] == SUFFIX[10] == '<' && SUFFIX[11] == 'E'
  {
    hide IsPlain, IsOperator;
    MorePlainLetters();
  }

  /** A heredoc of `python`, opened behind the closing quote. */
  lemma SuffixScanned() returns (p: Word, h: Heredoc)
    ensures Scan(SUFFIX) == CommandScan([[p]], [h]) && p.text == "python" && h.interpreter && h.line == 11
  {
    hide Collect, TokenAt, Add, PlainWord, NonEmpty, IsSpace, IsDigit, IsSeparator, Conclude, NewHeredoc;
    SuffixWords();
    SeparatorStep(SUFFIX, 0, START);
    var c1 := START.(commands := START.commands + [[]]);
    var c2, w := WordStep(SUFFIX, 1, 2, 8, c1);
    var c3, e := DelimiterStep(SUFFIX, 8, 9, c2);
    p := w;
    assert c2.commands == [[], [p]] by {
      assert [] + [p] == [p];
    }
    var own := NewHeredoc(e, false);
    assert c3 == Collected([[], [p]], [], [Own(own, 1)]);
    HeredocLabelled(e, false);
    RunsInterpreter(p);
    h := own.(owner := [p], interpreter := true);
    ConcludeHeredoc(p, own);
  }

  lemma RunsInterpreter(p: Word)
    requires p.text == "python"
    ensures RunsPython([p]) && SourceOf([p]) == NoSource
  {
    assert !IsAssignment("python");
    assert DirectInterpreterIndex([p]) == 0;
  }

  lemma ConcludeHeredoc(p: Word, own: Heredoc)
    requires RunsPython([p])
    ensures Conclude(Collected([[], [p]], [], [Own(own, 1)])) == CommandScan([[p]], [own.(owner := [p], interpreter := true)])
  {
    hide RunsPython;
    var cs: seq<seq<Word>> := [[], [p]];
    var none: seq<seq<Word>> := [[]];
    assert cs + [] == cs && cs[..1] == none && none[..0] == [];
    assert NonEmpty(none) == [] && NonEmpty(cs) == [[p]];
  }

  lemma SourceOpen(words: seq<Word>)
    requires |words| == 3 && words[0].text == "python" && words[1].text == "-c"
    ensures SourceOf(words) == Given("python", words[2])
  {
    assert !IsAssignment("python");
    assert DirectInterpreterIndex(words) == 0;
    assert FirstFlag(words, 1) == 1;
    StartsAt(words[1].text, "--eval=", 0, 1);
  }

  /** The rest of the closing line, checked as a text of its own. */
  lemma SuffixChecked() returns (h: Heredoc)
    ensures CheckText(SUFFIX, [], false) == ([], [h]) && h.interpreter && h.line == 1
  {
    hide Scan, SourceOf, Judge, EndsInBackslash, Concat, ScanAt, CheckText, SplitLines, LineAt;
    var p, own := SuffixScanned();
    NoBreaks(SUFFIX);
    var lines, st := [SUFFIX], Check(0, [], []);
    OnlyLineScan(SUFFIX);
    var scan, f := ScanAt(lines, 0), LineAt(0, [0]);
    h := RelabelHeredoc(f, own);
    var moved := [RelabelWord(f, p)];
    assert RelabelCommand(f, [p]) == moved;
    assert scan.commands == [moved] && scan.heredocs == [h];
    RunsInterpreter(moved[0]);
    OneStart();
    assert [moved][..0] == [];
    NoSourceKept(lines, st, moved, |SUFFIX|);
    assert JudgeAll(lines, st, [moved], |SUFFIX|) == st;
    assert LastJoined(lines, 0) == 0;
    var r := Round(lines, st, |SUFFIX|);
    assert [] + [h] == [h];
    assert r == Check(1, [h], []);
    Finished(SUFFIX, lines, r);
    assert CheckText(SUFFIX, [], false).0 == r.findings + [] == [];
    assert CheckText(SUFFIX, [], false).1 == [h];
  }

  lemma NoSourceKept(lines: seq<string>, st: Check, words: seq<Word>, limit: nat)
    requires WithinLimit(lines, limit) && SourceOf(words).NoSource?
    ensures Judge(lines, st, words, limit) == st
  {
  }

  lemma OneStart()
    ensures LineAt(0, [0])(11) == 1
  {
    assert [0][..0] == [];
  }

  const TWO_LINES := SPAN + "\n" + CLOSING

  lemma {:induction false} SplitOnce(a: string, b: string)
    requires '\n' !in a && '\r' !in a && '\n' !in b
    ensures SplitLines(a + ("\n" + b)) == [a, b]
  {
    var s := a + ("\n" + b);
    if a == "" {
      NoBreaks(b);
      assert s[1..] == b;
    } else {
      SplitOnce(a[1..], b);
      assert s[1..] == a[1..] + ("\n" + b);
      assert a == [a[0]] + a[1..];
    }
  }

  lemma ClosesOnLineTwo()
    ensures QuoteClose(CLOSING, Single) == 1 && SuffixOf(CLOSING, Single) == SUFFIX
    ensures ClosingLine([SPAN, CLOSING], 1, Single) == 1
    ensures !Continues(SPAN)
  {
    assert QuoteClose(CLOSING, Single, 1) == 1;
    assert SPAN[|SPAN| - 1] == 'a';
  }

  /** The heredoc stands on line two of the text, where its delimiter is; that it is never
      closed is reported at line one. */
  lemma MisplacedExample()
    ensures SplitLines(TWO_LINES) == [SPAN, CLOSING]
    ensures CheckText(TWO_LINES, [], true).0 == [Finding(1, UnterminatedHeredoc)]
  {
    hide Scan, Judge, SourceOf, EndsInBackslash, Concat, ScanAt, CheckText, SplitLines, LineAt, QuoteClose, ClosingLine, Continues;
    assert TWO_LINES == SPAN + ("\n" + CLOSING);
    SplitOnce(SPAN, CLOSING);
    ClosesOnLineTwo();
    var lines, st, limit := [SPAN, CLOSING], Check(0, [], []), |TWO_LINES|;
    var a := SpanScanned();
    var h := SuffixChecked();
    FirstLineScan(lines);
    var scan, f := ScanAt(lines, 0), LineAt(0, [0]);
    var words := RelabelCommand(f, a);
    assert scan.commands == [words] && scan.heredocs == [];
    SourceOpen(words);
    assert [words][..0] == [];
    SpanJudged(lines, st, words, limit, h);
    assert JudgeAll(lines, st, [words], limit) == Check(1, [h], []);
    Finished(TWO_LINES, lines, Round(lines, st, limit));
    Finalized(h);
  }

  lemma FirstLineScan(lines: seq<string>)
    requires lines == [SPAN, CLOSING] && !Continues(SPAN)
    ensures ScanAt(lines, 0) == Relabel(LineAt(0, [0]), Scan(SPAN)) && LastJoined(lines, 0) == 0
  {
    hide Scan, Continues, Concat;
    JoinOne(lines, 0);
    assert StartsOf([SPAN]) == [0] by {
      BeginAndEnd([SPAN]);
    }
  }

  lemma SpanJudged(lines: seq<string>, st: Check, words: seq<Word>, limit: nat, h: Heredoc)
    requires lines == [SPAN, CLOSING] && WithinLimit(lines, limit) && st == Check(0, [], []) && |words| == 3
    requires SourceOf(words) == Given("python", words[2]) && words[2].openQuote == Single && words[2].expandable == []
    requires CheckText(SUFFIX, [], false) == ([], [h])
    ensures Judge(lines, st, words, limit) == Check(1, [h], [])
  {
    hide SourceOf, CheckText, EndsInBackslash, QuoteClose, ClosingLine;
    ClosesOnLineTwo();
    var s := SourceOf(words);
    assert !IsComplete(s);
    assert Judge(lines, st, words, limit) == JudgeIncomplete(lines, st, s, limit);
    assert CLOSING[QuoteClose(CLOSING, Single) + 1..] == SUFFIX;
    assert !SpanExpands(lines, words[2], 1, 1);
    assert [] + Shifted([], 1) == [];
  }

  lemma Finalized(h: Heredoc)
    requires h.interpreter && h.line == 1
    ensures [] + Unclosed([h]) == [Finding(1, UnterminatedHeredoc)]
  {
    assert [h][..0] == [];
  }

  // ---------- a source in double quotes ----------

  const PRINT := "python3 -c \"print($X)\""

  /** The rest of the text is one double-quoted word without backslashes and without command
      substitutions. */
  predicate QuotedWord(text: string, start: nat) {
    && start + 1 < |text| && text[start] == text[|text| - 1] == '"'
    && forall k :: start < k < |text| - 1 ==> text[k] != '"' && text[k] != '\\' && (text[k] == '$' ==> text[k + 1] != '(')
  }

  lemma {:induction false} QuotedRun(text: string, start: nat, r: Reader)
    requires QuotedWord(text, start) && start < r.index < |text| && Reading(text, start, r)
    requires r == Begin(start).(index := r.index, quote := Double, value := text[start + 1..r.index], expandable := text[start + 1..r.index])
    ensures var r' := Run(text, start, r);
            && r'.index == |text| && r'.quote == NoQuote
            && r'.value == r'.expandable == text[start + 1..|text| - 1] && r'.regions == [] && r'.regionStart == -1
    decreases |text| - r.index
  {
    hide Reading, IsSpace, IsOperator;
    AdvanceKeepsReading(text, start, r);
    var s := Advance(text, start, r);
    if r.index == |text| - 1 {
      assert Run(text, start, s) == s;
    } else {
      StartsAt(text, "$((", r.index, 0);
      StartsAt(text, "$((", r.index, 1);
      assert text[start + 1..r.index + 1] == text[start + 1..r.index] + [text[r.index]];
      QuotedRun(text, start, s);
    }
  }

  lemma QuotedRead(text: string, start: nat)
    requires QuotedWord(text, start)
    ensures var (w, next) := ReadWord(text, start);
            && next == |text| && w.text == text[start + 1..|text| - 1] && w.regions == [] && w.openQuote == NoQuote
            && w.expandable == Findings(text[start + 1..|text| - 1])
  {
    hide Reading, IsSpace, IsOperator, Findings;
    BeginReading(text, start);
    var b := Begin(start);
    DoubleQuoteStarts(text, start);
    AdvanceKeepsReading(text, start, b);
    var r := Advance(text, start, b);
    assert text[start + 1..start + 1] == "";
    QuotedRun(text, start, r);
    assert Run(text, start, b) == Run(text, start, r);
  }

  lemma DoubleQuoteStarts(text: string, start: nat)
    requires start < |text| && text[start] == '"'
    ensures !Stops(text, Begin(start))
  {
  }

  lemma QuotedToken(text: string, start: nat)
    requires QuotedWord(text, start)
    ensures var t := TokenAt(text, start);
            && t.Argument? && t.next == |text| && t.word.text == text[start + 1..|text| - 1]
            && t.word.regions == [] && t.word.openQuote == NoQuote && t.word.expandable == Findings(text[start + 1..|text| - 1])
  {
    hide ReadWord, IndexOf, IsSpace, Findings;
    QuotedRead(text, start);
    NoRedirection(text, start, 0);
    assert RunEnd(text, start, IsDigit) == start;
    StartsAt(text, "<<<", start, 0);
    StartsAt(text, "<<", start, 0);
    StartsAt(text, "((", start, 0);
  }

  lemma QuotedStep(text: string, cursor: nat, start: nat, acc: Collected) returns (next: Collected, w: Word)
    requires cursor <= start && QuotedWord(text, start) && acc.Valid()
    requires forall k :: cursor <= k < start ==> IsSpace(text[k])
    ensures next.Valid() && Collect(text, cursor, acc) == next
    ensures w.text == text[start + 1..|text| - 1] && w.openQuote == NoQuote && w.expandable == Findings(text[start + 1..|text| - 1])
    ensures next == acc.(commands := PushWord(acc.commands, w))
  {
    hide TokenAt, IsDigit, Findings;
    QuotedToken(text, start);
    assert SkipSpaces(text, cursor) == start by {
      assert !IsSpace(text[start]);
    }
    var t := TokenAt(text, start);
    next, w := Add(acc, t, CommandScan([], [])), t.word;
    assert ScanRegions(RegionsOf(t), |text|) == CommandScan([], []);
  }

  lemma PrintWords()
    ensures PRINT[0..7] == "python3" && PRINT[8..10] == "-c" && PRINT[12..|PRINT| - 1] == "print($X)"
    ensures PlainWord(PRINT, 0, 7) && PlainWord(PRINT, 8, 10) && QuotedWord(PRINT, 11)
    ensures IsSpace(PRINT[7]) && IsSpace(PRINT[10]) && !IsDigit(PRINT[0]) && !IsDigit(PRINT[8])
    ensures '\n' !in PRINT
  {
    hide IsPlain, IsOperator;
    MorePlainLetters();
  }

  lemma ExpandsX()
    ensures Findings("print($X)") != []
  {
    hide OddBefore;
    var s := "print($X)";
    OddNext(s, 5, '$');
    OddNext(s, 5, '\\');
    assert LiveAt(s, 6);
    ExpandsExactly(s);
  }

  lemma PrintScanned() returns (a: seq<Word>)
    ensures Scan(PRINT) == CommandScan([a], [])
    ensures |a| == 3 && a[0].text == "python3" && a[1].text == "-c"
    ensures a[2].text == "print($X)" && a[2].openQuote == NoQuote && a[2].expandable != []
  {
    hide Collect, TokenAt, Add, PlainWord, QuotedWord, NonEmpty, IsSpace, IsDigit, Conclude, Findings;
    PrintWords();
    ExpandsX();
    var c1, w1 := WordStep(PRINT, 0, 0, 7, START);
    var c2, w2 := WordStep(PRINT, 7, 8, 10, c1);
    var c3, w3 := QuotedStep(PRINT, 10, 11, c2);
    a := [w1, w2, w3];
    PushTwice([], w1, w2);
    assert [] + [[]] == START.commands && [] + [[w1, w2]] == [[w1, w2]];
    assert [w1, w2] + [w3] == a;
    assert c3 == Collected([a], [], []);
    ConcludeOne(a);
  }

  lemma SourceGiven(words: seq<Word>)
    requires |words| == 3 && words[0].text == "python3" && words[1].text == "-c"
    ensures SourceOf(words) == Given("python3", words[2])
  {
    assert !IsAssignment("python3");
    assert DirectInterpreterIndex(words) == 0;
    assert FirstFlag(words, 1) == 1;
    StartsAt(words[1].text, "--eval=", 0, 1);
  }

  /** The expansion in the source is reported at its line, and nothing else is. */
  lemma ExpansionExample()
    ensures SplitLines(PRINT) == [PRINT]
    ensures CheckText(PRINT, [], true).0 == [Finding(1, CommandSource)]
  {
    hide Scan, SourceOf, EndsInBackslash, Concat, ScanAt, CheckText, SplitLines, LineAt, JudgeIncomplete;
    PrintWords();
    NoBreaks(PRINT);
    var lines, st := [PRINT], Check(0, [], []);
    var a := PrintScanned();
    OnlyLineScan(PRINT);
    var scan, f := ScanAt(lines, 0), LineAt(0, [0]);
    var words := RelabelCommand(f, a);
    assert scan.commands == [words] && scan.heredocs == [];
    SourceGiven(words);
    ScanWithin(lines, 0);
    assert scan.commands[0] == words && WordsWithin(words, 1);
    assert words[2].line == 1;
    assert [words][..0] == [];
    var r := Report(st, 1, CommandSource);
    assert Judge(lines, st, words, |PRINT|) == r;
    assert JudgeAll(lines, st, [words], |PRINT|) == r;
    assert LastJoined(lines, 0) == 0;
    Finished(PRINT, lines, Round(lines, st, |PRINT|));
    assert Unclosed([]) == [];
  }
}
