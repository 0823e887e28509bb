/** The words and heredocs of one logical shell command line, at every depth of command
    substitution. */
module ShellCommands {
  import opened Json
  import opened ShellText
  import opened ShellWords

  datatype Heredoc = Heredoc(
    delimiter: string,
    expanding: bool,
    stripTabs: bool,
    interpreter: bool,
    line: nat,
    owner: seq<Word>)

  datatype CommandScan = CommandScan(commands: seq<seq<Word>>, heredocs: seq<Heredoc>)

  // ---------- the delimiter of a heredoc ----------

  datatype Delimiter = Delimiter(delimiter: string, expanding: bool)

  /** Quote removal from position `i` on, given what the part before left. */
  function Unquote(word: string, i: nat, quote: Quote, done: Delimiter): Delimiter
    requires i <= |word|
    decreases |word| - i
  {
    if i == |word| then done
    else
      var c := word[i];
      var literal := done.(delimiter := done.delimiter + [c]);
      match quote
      case Single =>
        if c == '\'' then Unquote(word, i + 1, NoQuote, done) else Unquote(word, i + 1, Single, literal)
      case Double =>
        if c == '"' then Unquote(word, i + 1, NoQuote, done)
        else if c == '\\' && i + 1 < |word| && word[i + 1] in "$`\"\\" then
          Unquote(word, i + 2, Double, done.(delimiter := done.delimiter + [word[i + 1]]))
        else Unquote(word, i + 1, Double, literal)
      case NoQuote =>
        if IsQuote(c) then Unquote(word, i + 1, QuoteOf(c), done.(expanding := false))
        else if c == '\\' then
          if i + 1 < |word| then Unquote(word, i + 2, NoQuote, Delimiter(done.delimiter + [word[i + 1]], false))
          else done.(expanding := false)
        else Unquote(word, i + 1, NoQuote, literal)
  }

  predicate Protects(c: char) {
    IsQuote(c) || c == '\\'
  }

  lemma {:induction false} UnquoteExpanding(word: string, i: nat, quote: Quote, done: Delimiter)
    requires i <= |word|
    ensures quote == NoQuote ==>
              (Unquote(word, i, quote, done).expanding <==>
               done.expanding && forall k :: i <= k < |word| ==> !Protects(word[k]))
    ensures quote == NoQuote && (forall k :: i <= k < |word| ==> !Protects(word[k])) ==>
              Unquote(word, i, quote, done).delimiter == done.delimiter + word[i..]
    ensures !done.expanding ==> !Unquote(word, i, quote, done).expanding
    decreases |word| - i
  {
    if i >= |word| {
    } else {
      var c := word[i];
      var literal := done.(delimiter := done.delimiter + [c]);
      match quote {
        case Single =>
          UnquoteExpanding(word, i + 1, NoQuote, done);
          UnquoteExpanding(word, i + 1, Single, literal);
        case Double =>
          UnquoteExpanding(word, i + 1, NoQuote, done);
          UnquoteExpanding(word, i + 1, Double, literal);
          if i + 1 < |word| {
            UnquoteExpanding(word, i + 2, Double, done.(delimiter := done.delimiter + [word[i + 1]]));
          }
        case NoQuote =>
          UnquoteExpanding(word, i + 1, NoQuote, literal);
          if IsQuote(c) {
            UnquoteExpanding(word, i + 1, QuoteOf(c), done.(expanding := false));
          }
          if i + 1 < |word| {
            UnquoteExpanding(word, i + 2, NoQuote, Delimiter(done.delimiter + [word[i + 1]], false));
          }
      }
    }
  }

  /** A heredoc body is expanded exactly when its delimiter word holds no quote and no
      backslash, and then the delimiter is the word itself. */
  method HeredocDelimiter(word: string) returns (d: Delimiter)
    ensures d == Unquote(word, 0, NoQuote, Delimiter("", true))
    ensures d.expanding <==> forall k :: 0 <= k < |word| ==> !Protects(word[k])
    ensures d.expanding ==> d.delimiter == word
  {
    UnquoteExpanding(word, 0, NoQuote, Delimiter("", true));
    var delimiter := "";
    var quote := NoQuote;
    var quoted := false;
    var index := 0;
    while index < |word|
      invariant index <= |word|
      invariant Unquote(word, index, quote, Delimiter(delimiter, !quoted)) == Unquote(word, 0, NoQuote, Delimiter("", true))
    {
      var c := word[index];
      if quote == Single {
        if c == '\'' {
          quote := NoQuote;
        } else {
          delimiter := delimiter + [c];
        }
      } else if quote == Double {
        if c == '"' {
          quote := NoQuote;
        } else if c == '\\' && index + 1 < |word| && word[index + 1] in "$`\"\\" {
          delimiter := delimiter + [word[index + 1]];
          index := index + 1;
        } else {
          delimiter := delimiter + [c];
        }
      } else if IsQuote(c) {
        quoted, quote := true, QuoteOf(c);
      } else if c == '\\' {
        quoted := true;
        if index + 1 < |word| {
          delimiter := delimiter + [word[index + 1]];
          index := index + 1;
        }
      } else {
        delimiter := delimiter + [c];
      }
      index := index + 1;
    }
    d := Delimiter(delimiter, !quoted);
  }

  // ---------- the interpreter a command runs ----------

  predicate IsAssignment(text: string) {
    && text != "" && IsNameStart(text[0])
    && var end := RunEnd(text, 0, IsNamePart);
       end < |text| && text[end] == '='
  }

  predicate IsShortOption(text: string) {
    |text| >= 2 && text[0] == '-' && IsLetter(text[1])
  }

  predicate IsPrefixArgument(text: string) {
    IsAssignment(text) || IsShortOption(text)
  }

  predicate IsSegmentPart(c: char) {
    c != '/' && !IsSpace(c)
  }

  /** A bare interpreter name, or an absolute path whose last segment is one. */
  predicate IsInterpreter(text: string)
    decreases |text|
  {
    || text == "python" || text == "python3" || text == "node"
    || IsInterpreterPath(text)
  }

  predicate IsInterpreterPath(text: string)
    decreases |text|
  {
    && text != "" && text[0] == '/'
    && var rest := text[1..];
       || rest == "python" || rest == "python3" || rest == "node"
       || var end := RunEnd(rest, 0, IsSegmentPart);
          0 < end && IsInterpreterPath(rest[end..])
  }

  /** `/python3?$/`. */
  predicate EndsInPython(text: string) {
    || (|text| >= 6 && text[|text| - 6..] == "python")
    || (|text| >= 7 && text[|text| - 7..] == "python3")
  }

  function SkipWords(words: seq<Word>, from: nat, skip: string -> bool): (end: nat)
    requires from <= |words|
    ensures from <= end <= |words|
    decreases |words| - from
  {
    if from < |words| && skip(words[from].text) then SkipWords(words, from + 1, skip) else from
  }

  /** Past every `env`, `command` and `exec` with the assignments and options after it. */
  function SkipPrefixes(words: seq<Word>, from: nat): (end: nat)
    requires from <= |words|
    ensures from <= end <= |words|
    decreases |words| - from
  {
    if from < |words| && words[from].text in ["env", "command", "exec"]
    then SkipPrefixes(words, SkipWords(words, from + 1, IsPrefixArgument))
    else from
  }

  function DirectInterpreterIndex(words: seq<Word>): (i: int)
    ensures -1 <= i < |words|
  {
    var i := SkipPrefixes(words, SkipWords(words, 0, IsAssignment));
    if i < |words| && IsInterpreter(words[i].text) then i else -1
  }

  predicate RunsPython(owner: seq<Word>) {
    var i := DirectInterpreterIndex(owner);
    i >= 0 && EndsInPython(owner[i].text)
  }

  // ---------- tokens ----------

  datatype Token =
    | Nothing
    | Gap(next: nat)
    | Separator(next: nat)
    | Delimiting(word: Word, stripTabs: bool, next: nat)
    | Argument(word: Word, next: nat)

  const REDIRECTIONS: seq<string> := ["&>>", ">>", ">|", "<>", ">&", "<&", "&>", ">", "<"]

  /** The length of the first redirection operator that matches, or 0. */
  function RedirectionAt(text: string, from: nat, k: nat := 0): (n: nat)
    requires from <= |text| && k <= |REDIRECTIONS|
    ensures from + n <= |text|
    decreases |REDIRECTIONS| - k
  {
    if k == |REDIRECTIONS| then 0
    else if StartsWith(text, REDIRECTIONS[k], from) then |REDIRECTIONS[k]|
    else RedirectionAt(text, from, k + 1)
  }

  /** The position after a redirection and its operand, or `None` when there is none. */
  function RedirectionEnd(text: string, cursor: nat): (end: Option<nat>)
    requires cursor <= |text|
    ensures end.Some? ==> cursor < end.value <= |text|
  {
    var operator := RunEnd(text, cursor, IsDigit);
    var n := RedirectionAt(text, operator);
    if n == 0 then None
    else
      var target := SkipSpaces(text, operator + n);
      Some(ReadWord(text, target).1)
  }

  predicate IsSeparator(c: char) {
    c in ";|&"
  }

  /** The token that starts at `cursor`, which is not a space. */
  function TokenAt(text: string, cursor: nat): (t: Token)
    requires cursor < |text|
    ensures !t.Nothing? ==> cursor < t.next <= |text|
    ensures t.Argument? ==> ReadWord(text, cursor) == (t.word, t.next)
    ensures t.Delimiting? ==> cursor + 2 <= t.word.line < t.next && ReadWord(text, t.word.line) == (t.word, t.next)
  {
    if text[cursor] == '#' then Nothing
    else if StartsWith(text, "<<<", cursor) then Gap(cursor + 3)
    else if StartsWith(text, "<<", cursor) then
      var stripTabs := cursor + 2 < |text| && text[cursor + 2] == '-';
      var from := SkipSpaces(text, if stripTabs then cursor + 3 else cursor + 2);
      var (word, next) := ReadWord(text, from);
      if next == from then Gap(from) else Delimiting(word, stripTabs, next)
    else if RedirectionEnd(text, cursor).Some? then Gap(RedirectionEnd(text, cursor).value)
    else if IsSeparator(text[cursor]) then Separator(RunEnd(text, cursor, IsSeparator))
    else if StartsWith(text, "((", cursor) then
      var close := IndexOf(text, "))", cursor + 2);
      Gap(if close < 0 then |text| else close + 2)
    else
      var (word, next) := ReadWord(text, cursor);
      if next == cursor then Gap(cursor + 1) else Argument(word, next)
  }

  // ---------- relabelling ----------

  function RelabelWord(f: nat -> nat, w: Word): Word {
    w.(line := f(w.line))
  }

  function RelabelCommand(f: nat -> nat, ws: seq<Word>): (r: seq<Word>)
    ensures |r| == |ws| && forall i :: 0 <= i < |ws| ==> r[i] == RelabelWord(f, ws[i])
  {
    seq(|ws|, i requires 0 <= i < |ws| => RelabelWord(f, ws[i]))
  }

  function RelabelCommands(f: nat -> nat, cs: seq<seq<Word>>): (r: seq<seq<Word>>)
    ensures |r| == |cs| && forall i :: 0 <= i < |cs| ==> r[i] == RelabelCommand(f, cs[i])
  {
    seq(|cs|, i requires 0 <= i < |cs| => RelabelCommand(f, cs[i]))
  }

  function RelabelHeredoc(f: nat -> nat, h: Heredoc): Heredoc {
    h.(line := f(h.line), owner := RelabelCommand(f, h.owner))
  }

  function RelabelHeredocs(f: nat -> nat, hs: seq<Heredoc>): (r: seq<Heredoc>)
    ensures |r| == |hs| && forall i :: 0 <= i < |hs| ==> r[i] == RelabelHeredoc(f, hs[i])
  {
    seq(|hs|, i requires 0 <= i < |hs| => RelabelHeredoc(f, hs[i]))
  }

  /** The scan with every position `p` replaced by `f(p)`. */
  function Relabel(f: nat -> nat, scan: CommandScan): CommandScan {
    CommandScan(RelabelCommands(f, scan.commands), RelabelHeredocs(f, scan.heredocs))
  }

  function Plus(offset: nat): nat -> nat {
    (p: nat) => offset + p
  }

  /** `f` seen from a text that stands at `offset`. */
  function After(f: nat -> nat, offset: nat): nat -> nat {
    (p: nat) => f(offset + p)
  }

  /** The scan of a text that stands at `offset` inside a larger one. */
  function Shift(offset: nat, scan: CommandScan): CommandScan {
    Relabel(Plus(offset), scan)
  }

  lemma RelabelShift(f: nat -> nat, offset: nat, scan: CommandScan)
    ensures Relabel(f, Shift(offset, scan)) == Relabel(After(f, offset), scan)
  {
    var once, twice := Relabel(After(f, offset), scan), Relabel(f, Shift(offset, scan));
    forall i | 0 <= i < |scan.commands|
      ensures once.commands[i] == twice.commands[i]
    {
      RelabelCommandShift(f, offset, scan.commands[i]);
    }
    forall i | 0 <= i < |scan.heredocs|
      ensures once.heredocs[i] == twice.heredocs[i]
    {
      RelabelCommandShift(f, offset, scan.heredocs[i].owner);
    }
  }

  lemma RelabelCommandShift(f: nat -> nat, offset: nat, ws: seq<Word>)
    ensures RelabelCommand(f, RelabelCommand(Plus(offset), ws)) == RelabelCommand(After(f, offset), ws)
  {
  }

  // ---------- the scan of one command line ----------

  /** A heredoc of this level, owned by the command with the given index, or one that a
      nested scan has already settled. */
  datatype Pending = Own(heredoc: Heredoc, command: nat) | Settled(heredoc: Heredoc)

  datatype Collected = Collected(commands: seq<seq<Word>>, nested: seq<seq<Word>>, heredocs: seq<Pending>)
  {
    predicate Valid() {
      commands != [] && forall i :: 0 <= i < |heredocs| && heredocs[i].Own? ==> heredocs[i].command < |commands|
    }
  }

  const START := Collected([[]], [], [])

  function PushWord(commands: seq<seq<Word>>, w: Word): seq<seq<Word>>
    requires commands != []
  {
    commands[|commands| - 1 := commands[|commands| - 1] + [w]]
  }

  function SettleAll(hs: seq<Heredoc>): seq<Pending> {
    seq(|hs|, i requires 0 <= i < |hs| => Settled(hs[i]))
  }

  function NewHeredoc(word: Word, stripTabs: bool): Heredoc {
    var d := Unquote(word.raw, 0, NoQuote, Delimiter("", true));
    Heredoc(d.delimiter, d.expanding, stripTabs, false, word.line, [])
  }

  function Join(a: CommandScan, b: CommandScan): CommandScan {
    CommandScan(a.commands + b.commands, a.heredocs + b.heredocs)
  }

  /** What one token adds to a scan. */
  function Add(acc: Collected, t: Token, inner: CommandScan): (r: Collected)
    requires acc.Valid()
    ensures r.Valid()
  {
    match t
    case Nothing => acc
    case Gap(_) => acc
    case Separator(_) => acc.(commands := acc.commands + [[]])
    case Delimiting(word, stripTabs, _) =>
      acc.(heredocs := acc.heredocs + [Own(NewHeredoc(word, stripTabs), |acc.commands| - 1)])
    case Argument(word, _) =>
      Collected(PushWord(acc.commands, word), acc.nested + inner.commands, acc.heredocs + SettleAll(inner.heredocs))
  }

  function NonEmpty(cs: seq<seq<Word>>): seq<seq<Word>> {
    if cs == [] then []
    else NonEmpty(cs[..|cs| - 1]) + (if cs[|cs| - 1] == [] then [] else [cs[|cs| - 1]])
  }

  function Settle(commands: seq<seq<Word>>, p: Pending): Heredoc
    requires p.Own? ==> p.command < |commands|
  {
    match p
    case Settled(h) => h
    case Own(h, c) => h.(owner := commands[c], interpreter := RunsPython(commands[c]))
  }

  function Conclude(acc: Collected): CommandScan
    requires acc.Valid()
  {
    CommandScan(NonEmpty(acc.commands + acc.nested),
                seq(|acc.heredocs|, i requires 0 <= i < |acc.heredocs| => Settle(acc.commands, acc.heredocs[i])))
  }

  function RegionsOf(t: Token): seq<Region> {
    if t.Argument? then t.word.regions else []
  }

  /** The tokens from `cursor` on, added one after the other. */
  function Collect(text: string, cursor: nat, acc: Collected): (r: Collected)
    requires cursor <= |text| && acc.Valid()
    ensures r.Valid()
    decreases |text|, 1, |text| - cursor
  {
    var from := SkipSpaces(text, cursor);
    if from == |text| then acc
    else
      var t := TokenAt(text, from);
      if t.Nothing? then acc
      else Collect(text, t.next, Add(acc, t, ScanRegions(RegionsOf(t), |text|)))
  }

  /** The scans of the substitutions of one word, one after the other, each moved to where
      its text stands. */
  function ScanRegions(regions: seq<Region>, limit: nat): CommandScan
    requires forall g :: g in regions ==> |g.text| < limit
    decreases limit, 0, |regions|
  {
    if regions == [] then CommandScan([], [])
    else
      var last := regions[|regions| - 1];
      Join(ScanRegions(regions[..|regions| - 1], limit), Shift(last.start, Scan(last.text)))
  }

  /** All words and heredocs of a command line, at every depth, each labelled with the
      position of its first character in `text`. */
  function Scan(text: string): CommandScan
    decreases |text|, 2, 0
  {
    Conclude(Collect(text, 0, START))
  }

  // ---------- every word and heredoc stands where its label says ----------

  predicate WordAtLabel(text: string, w: Word) {
    w.raw != "" && w.line + |w.raw| <= |text| && text[w.line..w.line + |w.raw|] == w.raw
  }

  predicate CommandAtLabels(text: string, ws: seq<Word>) {
    forall i :: 0 <= i < |ws| ==> WordAtLabel(text, ws[i])
  }

  predicate CommandsAtLabels(text: string, cs: seq<seq<Word>>) {
    forall i :: 0 <= i < |cs| ==> CommandAtLabels(text, cs[i])
  }

  /** The label of a heredoc is the position of the delimiter word it was read from. */
  ghost predicate HeredocAtLabel(text: string, h: Heredoc) {
    exists n: nat :: DelimitedBy(text, h, n)
  }

  predicate DelimitedBy(text: string, h: Heredoc, n: nat) {
    && 0 < n && h.line + n <= |text|
    && Unquote(text[h.line..h.line + n], 0, NoQuote, Delimiter("", true)) == Delimiter(h.delimiter, h.expanding)
  }

  ghost predicate SettledHeredoc(text: string, h: Heredoc) {
    HeredocAtLabel(text, h) && CommandAtLabels(text, h.owner) && h.interpreter == RunsPython(h.owner)
  }

  ghost predicate ScanAtLabels(text: string, scan: CommandScan) {
    && CommandsAtLabels(text, scan.commands)
    && forall i :: 0 <= i < |scan.heredocs| ==> SettledHeredoc(text, scan.heredocs[i])
  }

  ghost predicate PendingAtLabel(text: string, p: Pending) {
    match p
    case Own(h, _) => HeredocAtLabel(text, h)
    case Settled(h) => SettledHeredoc(text, h)
  }

  ghost predicate CollectedAtLabels(text: string, acc: Collected) {
    && CommandsAtLabels(text, acc.commands)
    && CommandsAtLabels(text, acc.nested)
    && forall i :: 0 <= i < |acc.heredocs| ==> PendingAtLabel(text, acc.heredocs[i])
  }

  /** What stands somewhere in a slice stands in the whole text, moved by the slice's start. */
  lemma SliceOfSlice(text: string, from: nat, inner: string, k: nat, n: nat)
    requires from + |inner| <= |text| && text[from..from + |inner|] == inner && k + n <= |inner|
    ensures text[from + k..from + k + n] == inner[k..k + n]
  {
    var whole := text[from..from + |inner|];
    var slice := text[from + k..from + k + n];
    forall i | 0 <= i < n
      ensures slice[i] == inner[k..k + n][i]
    {
      assert whole[k + i] == inner[k + i];
    }
  }

  lemma ShiftedCommand(text: string, g: Region, ws: seq<Word>)
    requires g.start + |g.text| <= |text| && text[g.start..g.start + |g.text|] == g.text
    requires CommandAtLabels(g.text, ws)
    ensures CommandAtLabels(text, RelabelCommand(Plus(g.start), ws))
  {
    forall i | 0 <= i < |ws|
      ensures WordAtLabel(text, RelabelCommand(Plus(g.start), ws)[i])
    {
      assert WordAtLabel(g.text, ws[i]);
      SliceOfSlice(text, g.start, g.text, ws[i].line, |ws[i].raw|);
    }
  }

  lemma RelabelKeepsTexts(f: nat -> nat, ws: seq<Word>)
    ensures RunsPython(RelabelCommand(f, ws)) == RunsPython(ws)
  {
    RelabelSkip(f, ws, 0, IsAssignment);
    RelabelPrefixes(f, ws, SkipWords(ws, 0, IsAssignment));
  }

  lemma {:induction false} RelabelSkip(f: nat -> nat, ws: seq<Word>, from: nat, skip: string -> bool)
    requires from <= |ws|
    ensures SkipWords(RelabelCommand(f, ws), from, skip) == SkipWords(ws, from, skip)
    decreases |ws| - from
  {
    if from >= |ws| {
    } else {
      RelabelSkip(f, ws, from + 1, skip);
    }
  }

  lemma {:induction false} RelabelPrefixes(f: nat -> nat, ws: seq<Word>, from: nat)
    requires from <= |ws|
    ensures SkipPrefixes(RelabelCommand(f, ws), from) == SkipPrefixes(ws, from)
    decreases |ws| - from
  {
    if from >= |ws| {
    } else {
      RelabelSkip(f, ws, from + 1, IsPrefixArgument);
      RelabelPrefixes(f, ws, SkipWords(ws, from + 1, IsPrefixArgument));
    }
  }

  lemma ShiftedScan(text: string, g: Region, scan: CommandScan)
    requires g.start + |g.text| <= |text| && text[g.start..g.start + |g.text|] == g.text
    requires ScanAtLabels(g.text, scan)
    ensures ScanAtLabels(text, Shift(g.start, scan))
  {
    hide RunsPython, WordAtLabel;
    var moved := Shift(g.start, scan);
    forall i | 0 <= i < |scan.commands|
      ensures CommandAtLabels(text, moved.commands[i])
    {
      ShiftedCommand(text, g, scan.commands[i]);
    }
    forall i | 0 <= i < |scan.heredocs|
      ensures SettledHeredoc(text, moved.heredocs[i])
    {
      var h := scan.heredocs[i];
      assert SettledHeredoc(g.text, h);
      ShiftedCommand(text, g, h.owner);
      RelabelKeepsTexts(Plus(g.start), h.owner);
      var n: nat :| DelimitedBy(g.text, h, n);
      SliceOfSlice(text, g.start, g.text, h.line, n);
      assert DelimitedBy(text, moved.heredocs[i], n);
    }
  }

  lemma TokenAtLabel(text: string, from: nat)
    requires from < |text|
    ensures var t := TokenAt(text, from);
            && (t.Argument? ==> WordAtLabel(text, t.word))
            && (t.Delimiting? ==> HeredocAtLabel(text, NewHeredoc(t.word, t.stripTabs)))
  {
    hide ReadWord, Unquote, RedirectionEnd, IndexOf, IsSpace, SkipSpaces, Ordered, RegionOf;
    var t := TokenAt(text, from);
    if t.Delimiting? {
      assert DelimitedBy(text, NewHeredoc(t.word, t.stripTabs), t.next - t.word.line);
    }
  }

  lemma AddAtLabels(text: string, from: nat, acc: Collected, inner: CommandScan)
    requires from < |text| && acc.Valid() && CollectedAtLabels(text, acc) && ScanAtLabels(text, inner)
    ensures CollectedAtLabels(text, Add(acc, TokenAt(text, from), inner))
  {
    hide TokenAt, SettledHeredoc, HeredocAtLabel, WordAtLabel, NewHeredoc;
    TokenAtLabel(text, from);
  }

  lemma {:induction false} NonEmptyAtLabels(text: string, cs: seq<seq<Word>>)
    requires CommandsAtLabels(text, cs)
    ensures CommandsAtLabels(text, NonEmpty(cs))
  {
    if cs == [] {
    } else {
      NonEmptyAtLabels(text, cs[..|cs| - 1]);
    }
  }

  lemma ConcludeAtLabels(text: string, acc: Collected)
    requires acc.Valid() && CollectedAtLabels(text, acc)
    ensures ScanAtLabels(text, Conclude(acc))
  {
    NonEmptyAtLabels(text, acc.commands + acc.nested);
    forall i | 0 <= i < |acc.heredocs|
      ensures SettledHeredoc(text, Settle(acc.commands, acc.heredocs[i]))
    {
      var p := acc.heredocs[i];
      assert PendingAtLabel(text, p);
      if p.Own? {
        var n: nat :| DelimitedBy(text, p.heredoc, n);
        assert DelimitedBy(text, Settle(acc.commands, p), n);
      }
    }
  }

  lemma {:induction false} CollectAtLabels(text: string, cursor: nat, acc: Collected)
    requires cursor <= |text| && acc.Valid() && CollectedAtLabels(text, acc)
    ensures CollectedAtLabels(text, Collect(text, cursor, acc))
    decreases |text|, 1, |text| - cursor
  {
    hide CollectedAtLabels, ScanAtLabels, TokenAt;
    var from := SkipSpaces(text, cursor);
    if from >= |text| || TokenAt(text, from).Nothing? {
    } else {
      var t := TokenAt(text, from);
      RegionsAtLabels(text, RegionsOf(t), |text|);
      AddAtLabels(text, from, acc, ScanRegions(RegionsOf(t), |text|));
      CollectAtLabels(text, t.next, Add(acc, t, ScanRegions(RegionsOf(t), |text|)));
    }
  }

  lemma {:induction false} RegionsAtLabels(text: string, regions: seq<Region>, limit: nat)
    requires forall g :: g in regions ==>
               |g.text| < limit && g.start + |g.text| <= |text| && text[g.start..g.start + |g.text|] == g.text
    ensures ScanAtLabels(text, ScanRegions(regions, limit))
    decreases limit, 0, |regions|
  {
    if regions == [] {
    } else {
      var last := regions[|regions| - 1];
      RegionsAtLabels(text, regions[..|regions| - 1], limit);
      ScanLabels(last.text);
      ShiftedScan(text, last, Scan(last.text));
    }
  }

  /** Whatever the nesting, the label of every word and of every heredoc is the position
      where it stands in the command line. */
  lemma {:induction false} ScanLabels(text: string)
    ensures ScanAtLabels(text, Scan(text))
    decreases |text|, 2, 0
  {
    CollectAtLabels(text, 0, START);
    ConcludeAtLabels(text, Collect(text, 0, START));
  }

  // ---------- the scan as the checker runs it ----------

  function RelabelPending(f: nat -> nat, p: Pending): Pending {
    match p
    case Own(h, c) => Own(RelabelHeredoc(f, h), c)
    case Settled(h) => Settled(RelabelHeredoc(f, h))
  }

  function RelabelCollected(f: nat -> nat, acc: Collected): (r: Collected)
    ensures acc.Valid() ==> r.Valid()
  {
    Collected(RelabelCommands(f, acc.commands), RelabelCommands(f, acc.nested),
              seq(|acc.heredocs|, i requires 0 <= i < |acc.heredocs| => RelabelPending(f, acc.heredocs[i])))
  }

  function RelabelToken(f: nat -> nat, t: Token): Token {
    match t
    case Delimiting(w, stripTabs, next) => Delimiting(RelabelWord(f, w), stripTabs, next)
    case Argument(w, next) => Argument(RelabelWord(f, w), next)
    case _ => t
  }

  lemma RelabelPush(f: nat -> nat, cs: seq<seq<Word>>, w: Word)
    requires cs != []
    ensures RelabelCommands(f, PushWord(cs, w)) == PushWord(RelabelCommands(f, cs), RelabelWord(f, w))
  {
    var n := |cs| - 1;
    assert RelabelCommand(f, cs[n] + [w]) == RelabelCommand(f, cs[n]) + [RelabelWord(f, w)];
  }

  lemma RelabelAdd(f: nat -> nat, acc: Collected, t: Token, inner: CommandScan)
    requires acc.Valid()
    ensures RelabelCollected(f, Add(acc, t, inner)) == Add(RelabelCollected(f, acc), RelabelToken(f, t), Relabel(f, inner))
  {
    var one := RelabelCollected(f, Add(acc, t, inner));
    var two := Add(RelabelCollected(f, acc), RelabelToken(f, t), Relabel(f, inner));
    match t
    case Argument(w, _) =>
      RelabelPush(f, acc.commands, w);
      assert one.nested == two.nested;
      assert one.heredocs == two.heredocs;
    case Delimiting(w, _, _) =>
      assert one.heredocs == two.heredocs;
    case Separator(_) =>
      assert one.commands == two.commands;
    case _ =>
  }

  lemma {:induction false} RelabelNonEmpty(f: nat -> nat, cs: seq<seq<Word>>)
    ensures RelabelCommands(f, NonEmpty(cs)) == NonEmpty(RelabelCommands(f, cs))
  {
    if cs != [] {
      var n := |cs| - 1;
      RelabelNonEmpty(f, cs[..n]);
      assert RelabelCommands(f, cs)[..n] == RelabelCommands(f, cs[..n]);
      assert RelabelCommand(f, cs[n]) == [] <==> cs[n] == [];
    } else {
      assert RelabelCommands(f, cs) == [];
    }
  }

  lemma RelabelConclude(f: nat -> nat, acc: Collected)
    requires acc.Valid()
    ensures Relabel(f, Conclude(acc)) == Conclude(RelabelCollected(f, acc))
  {
    hide RunsPython, NonEmpty;
    var moved := RelabelCollected(f, acc);
    assert moved.commands + moved.nested == RelabelCommands(f, acc.commands + acc.nested);
    RelabelNonEmpty(f, acc.commands + acc.nested);
    forall i | 0 <= i < |acc.heredocs|
      ensures RelabelHeredoc(f, Settle(acc.commands, acc.heredocs[i])) == Settle(moved.commands, moved.heredocs[i])
    {
      if acc.heredocs[i].Own? {
        RelabelKeepsTexts(f, acc.commands[acc.heredocs[i].command]);
      }
    }
  }

  lemma RelabelJoin(f: nat -> nat, a: CommandScan, b: CommandScan)
    ensures Relabel(f, Join(a, b)) == Join(Relabel(f, a), Relabel(f, b))
  {
  }

  /** The token at `cursor`, read with the line of its word taken from `lineAt`. */
  method ReadToken(text: string, cursor: nat, lineAt: nat -> nat) returns (t: Token)
    requires cursor < |text|
    ensures t == RelabelToken(lineAt, TokenAt(text, cursor))
  {
    hide ReadWord, RunEnd, SkipSpaces, IndexOf, RedirectionEnd, IsSeparator, RegionOf, Ordered;
    if text[cursor] == '#' {
      return Nothing;
    }
    if StartsWith(text, "<<<", cursor) {
      return Gap(cursor + 3);
    }
    if StartsWith(text, "<<", cursor) {
      var from := cursor + 2;
      var stripTabs := from < |text| && text[from] == '-';
      if stripTabs {
        from := from + 1;
      }
      from := SkipSpaces(text, from);
      var delimiter, next := WordAt(text, from, lineAt);
      return if next == from then Gap(from) else Delimiting(delimiter, stripTabs, next);
    }
    var redirectEnd := RedirectionEnd(text, cursor);
    if redirectEnd.Some? {
      return Gap(redirectEnd.value);
    }
    if IsSeparator(text[cursor]) {
      return Separator(RunEnd(text, cursor, IsSeparator));
    }
    if StartsWith(text, "((", cursor) {
      var close := IndexOf(text, "))", cursor + 2);
      return Gap(if close < 0 then |text| else close + 2);
    }
    var word, next := WordAt(text, cursor, lineAt);
    return if next == cursor then Gap(cursor + 1) else Argument(word, next);
  }

  /** The scan of one command line, each substitution scanned by a call of its own whose
      positions are mapped through one more closure.  The composed closures give every word
      and heredoc, at every depth, the line of the position where it stands. */
  method CommandsOnLine(line: string, lineAt: nat -> nat) returns (scan: CommandScan)
    ensures scan == Relabel(lineAt, Scan(line))
    decreases |line|
  {
    var acc := START;
    var cursor := 0;
    ghost var spec := START;
    assert RelabelCollected(lineAt, START) == START;
    while cursor < |line|
      invariant cursor <= |line| && spec.Valid()
      invariant Collect(line, cursor, spec) == Collect(line, 0, START)
      invariant acc == RelabelCollected(lineAt, spec)
    {
      cursor := SkipSpaces(line, cursor);
      if cursor == |line| {
        break;
      }
      var t := ReadToken(line, cursor, lineAt);
      if t.Nothing? {
        break;
      }
      ghost var token := TokenAt(line, cursor);
      var inner := CommandScan([], []);
      if t.Argument? {
        inner := ScanSubstitutions(t.word.regions, |line|, lineAt);
      }
      RelabelAdd(lineAt, spec, token, ScanRegions(RegionsOf(token), |line|));
      acc := Add(acc, t, inner);
      spec := Add(spec, token, ScanRegions(RegionsOf(token), |line|));
      cursor := t.next;
    }
    RelabelConclude(lineAt, spec);
    scan := Conclude(acc);
  }

  method ScanSubstitutions(regions: seq<Region>, ghost limit: nat, lineAt: nat -> nat) returns (inner: CommandScan)
    requires forall g :: g in regions ==> |g.text| < limit
    ensures inner == Relabel(lineAt, ScanRegions(regions, limit))
    decreases limit, 0
  {
    inner := CommandScan([], []);
    for i := 0 to |regions|
      invariant inner == Relabel(lineAt, ScanRegions(regions[..i], limit))
    {
      var region := regions[i];
      var scan := CommandsOnLine(region.text, After(lineAt, region.start));
      RelabelShift(lineAt, region.start, Scan(region.text));
      RelabelJoin(lineAt, ScanRegions(regions[..i], limit), Shift(region.start, Scan(region.text)));
      assert regions[..i + 1][..i] == regions[..i];
      inner := Join(inner, scan);
    }
    assert regions[..|regions|] == regions;
  }
}
