/** Which word of a command is the source it hands to an interpreter, told from the shapes of
    the words before it. */
module SourceWords {
  import opened Json
  import opened ShellText
  import opened ShellWords
  import opened ShellCommands
  import opened InterpreterCheck

  // ---------- the shapes of words ----------

  /** A name, then an equals sign, then anything. */
  predicate AssignmentShape(text: string) {
    exists n :: 0 < n < |text| && text[n] == '=' && !IsDigit(text[0]) &&
                forall k :: 0 <= k < n ==> NameCharacter(text[k])
  }

  predicate NameCharacter(c: char) {
    'a' <= c <= 'z' || 'A' <= c <= 'Z' || '0' <= c <= '9' || c == '_'
  }

  /** A dash, then a letter, then anything. */
  predicate OptionShape(text: string) {
    |text| >= 2 && text[0] == '-' && ('a' <= text[1] <= 'z' || 'A' <= text[1] <= 'Z')
  }

  predicate PrefixWord(text: string) {
    text in {"env", "command", "exec"}
  }

  predicate InterpreterWord(text: string) {
    text in {"python", "python3", "node"}
  }

  predicate IsPath(text: string) {
    && |text| >= 2 && text[0] == '/' && text[|text| - 1] == '/'
    && forall k :: 0 <= k < |text| ==> !IsSpace(text[k]) && (k + 1 < |text| ==> text[k] != '/' || text[k + 1] != '/')
  }

  /** The first `n` characters are a directory, and an interpreter's name is the rest. */
  predicate NamedAfter(text: string, n: nat) {
    0 < n <= |text| && InterpreterWord(text[n..]) && (text[..n] == "/" || IsPath(text[..n]))
  }

  /** The name of an interpreter, alone, at the root, or at the end of an absolute path without
      spaces and empty segments. */
  predicate InterpreterShape(text: string) {
    || InterpreterWord(text)
    || exists n: nat :: n <= |text| && NamedAfter(text, n)
  }

  predicate FlagShape(text: string) {
    text in {"-c", "-e", "--eval"} || "--eval=" <= text
  }

  lemma AssignmentExactly(text: string)
    ensures IsAssignment(text) <==> AssignmentShape(text)
  {
    if IsAssignment(text) {
      var end := RunEnd(text, 0, IsNamePart);
      assert 0 < end < |text| && forall k :: 0 <= k < end ==> NameCharacter(text[k]);
    }
    if n :| 0 < n < |text| && text[n] == '=' && !IsDigit(text[0]) && forall k :: 0 <= k < n ==> NameCharacter(text[k]) {
      assert forall k :: 0 <= k < n ==> NameCharacter(text[k]) && IsNamePart(text[k]);
      assert !IsNamePart('=');
      assert RunEnd(text, 0, IsNamePart) == n;
      assert NameCharacter(text[0]);
    }
  }

  lemma SegmentBefore(text: string, end: nat, m: nat)
    requires text != "" && text[0] == '/' && 0 < end == RunEnd(text[1..], 0, IsSegmentPart)
    requires 1 <= m && 1 + end + m <= |text|
    ensures IsPath(text[..1 + end + m]) <==> text[1 + end] == '/' && (m == 1 || IsPath(text[1 + end..][..m]))
  {
    var rest, dir := text[1..], text[..1 + end + m];
    var inner := text[1 + end..][..m];
    assert forall k :: 0 <= k < end ==> rest[k] == dir[k + 1] && IsSegmentPart(rest[k]);
    assert forall k :: 0 <= k < m ==> inner[k] == dir[1 + end + k];
    assert rest[end] == dir[1 + end] && !IsSegmentPart(rest[end]);
    if IsPath(dir) {
      assert !IsSpace(dir[1 + end]);
      if m > 1 {
        forall k | 0 <= k < m
          ensures !IsSpace(inner[k]) && (k + 1 < m ==> inner[k] != '/' || inner[k + 1] != '/')
        {
          assert !IsSpace(dir[1 + end + k]);
          assert k + 1 < m ==> dir[1 + end + k] != '/' || dir[1 + end + (k + 1)] != '/';
        }
      }
    }
    if text[1 + end] == '/' && (m == 1 || IsPath(inner)) {
      forall k | 0 <= k < |dir|
        ensures !IsSpace(dir[k]) && (k + 1 < |dir| ==> dir[k] != '/' || dir[k + 1] != '/')
      {
        if 1 <= k <= end {
          assert IsSegmentPart(rest[k - 1]);
        } else if k == 0 {
          assert IsSegmentPart(rest[0]);
        } else {
          assert !IsSpace(inner[k - 1 - end]);
        }
      }
    }
  }

  lemma {:induction false} PathExactly(text: string)
    ensures IsInterpreterPath(text) <==> exists n: nat :: NamedAfter(text, n)
    decreases |text|
  {
    hide IsSpace, InterpreterWord, NamedAfter, IsSegmentPart, RunEnd;
    NamedAtRoot(text);
    if text == "" || text[0] != '/' {
    } else {
      var rest := text[1..];
      var end := RunEnd(rest, 0, IsSegmentPart);
      InterpreterNames(rest);
      NamedAtOnce(text);
      if end > 0 {
        PathExactly(rest[end..]);
        assert rest[end..] == text[1 + end..];
        NamedAtRoot(rest[end..]);
        NamedFurther(text, end);
      }
      if n: nat :| NamedAfter(text, n) {
        if n != 1 {
          SecondSegment(text, n);
          assert NamedAfter(text[1 + end..], n - 1 - end);
        }
      }
    }
  }

  lemma NamedAtOnce(text: string)
    requires text != "" && text[0] == '/'
    ensures NamedAfter(text, 1) <==> InterpreterWord(text[1..])
  {
    assert text[..1] == "/";
  }

  lemma NamedFurther(text: string, end: nat)
    requires text != "" && text[0] == '/' && 0 < end == RunEnd(text[1..], 0, IsSegmentPart)
    ensures forall m: nat {:trigger NamedAfter(text[1 + end..], m)} :: 1 <= m ==> (NamedAfter(text[1 + end..], m) <==> NamedAfter(text, 1 + end + m))
  {
    hide IsPath, InterpreterWord, IsSegmentPart, RunEnd;
    forall m: nat {:trigger NamedAfter(text[1 + end..], m)} | 1 <= m
      ensures NamedAfter(text[1 + end..], m) <==> NamedAfter(text, 1 + end + m)
    {
      if 1 + end + m <= |text| {
        var inner := text[1 + end..];
        SegmentBefore(text, end, m);
        NamedAtRoot(inner);
        assert text[1 + end + m..] == inner[m..];
        assert |text[..1 + end + m]| != 1;
        assert m == 1 && inner[0] == '/' ==> inner[..m] == "/";
        assert |inner[..m]| == m;
        assert IsPath(inner[..m]) ==> inner[..m][0] == '/' by {
          PathAtRoot(inner[..m]);
        }
      }
    }
  }

  lemma PathAtRoot(text: string)
    ensures IsPath(text) ==> |text| >= 2 && text[0] == '/'
  {
  }

  lemma InterpreterNames(text: string)
    ensures InterpreterWord(text) <==> text == "python" || text == "python3" || text == "node"
  {
  }

  lemma NamedAtRoot(text: string)
    ensures forall n: nat :: NamedAfter(text, n) ==> 0 < n <= |text| && text[..n][0] == '/' && text[0] == '/' && text[n - 1] == '/'
  {
  }

  lemma SecondSegment(text: string, n: nat)
    requires NamedAfter(text, n) && n != 1
    ensures text[0] == '/' && 0 < RunEnd(text[1..], 0, IsSegmentPart) <= n - 2
  {
    var rest, dir := text[1..], text[..n];
    var end := RunEnd(rest, 0, IsSegmentPart);
    assert rest[n - 2] == dir[n - 1] == '/';
    assert end <= n - 2;
    assert dir[0] != '/' || dir[1] != '/';
    assert !IsSpace(dir[1]) && dir[1] == rest[0];
  }

  lemma InterpreterExactly(text: string)
    ensures IsInterpreter(text) <==> InterpreterShape(text)
  {
    hide IsPath, IsInterpreterPath;
    PathExactly(text);
  }

  lemma FlagExactly(text: string)
    ensures IsSourceFlag(text) <==> FlagShape(text)
    ensures StartsWith(text, "--eval=", 0) <==> "--eval=" <= text
  {
  }

  // ---------- the command word ----------

  predicate Argument(text: string) {
    AssignmentShape(text) || OptionShape(text)
  }

  /** The words up to `a` are assignments; those from `a` to `e` are prefix words with their
      assignments and options, beginning with a prefix word; neither run goes on. */
  predicate Leads(words: seq<Word>, a: nat, e: nat) {
    && a <= e <= |words|
    && (forall k :: 0 <= k < a ==> AssignmentShape(words[k].text))
    && (a < |words| ==> !AssignmentShape(words[a].text))
    && (a < e ==> PrefixWord(words[a].text))
    && (forall k :: a <= k < e ==> PrefixWord(words[k].text) || Argument(words[k].text))
    && (e < |words| ==> !PrefixWord(words[e].text) && (a < e ==> !Argument(words[e].text)))
  }

  lemma LeadsOnce(words: seq<Word>)
    ensures forall a: nat, e: nat, b: nat, f: nat :: Leads(words, a, e) && Leads(words, b, f) ==> a == b && e == f
  {
    hide AssignmentShape, OptionShape, PrefixWord;
    forall a: nat, e: nat, b: nat, f: nat | Leads(words, a, e) && Leads(words, b, f)
      ensures a == b && e == f
    {
      LeadsLess(words, a, e, b, f);
      LeadsLess(words, b, f, a, e);
    }
  }

  lemma LeadsLess(words: seq<Word>, a: nat, e: nat, b: nat, f: nat)
    requires Leads(words, a, e) && Leads(words, b, f)
    ensures a >= b && (a == b ==> e >= f)
  {
    hide AssignmentShape, OptionShape, PrefixWord;
  }

  lemma {:induction false} SkippedWords(words: seq<Word>, from: nat, skip: string -> bool)
    requires from <= |words|
    ensures var end := SkipWords(words, from, skip);
            && (forall k :: from <= k < end ==> skip(words[k].text))
            && (end < |words| ==> !skip(words[end].text))
    decreases |words| - from
  {
    if from >= |words| {
    } else {
      SkippedWords(words, from + 1, skip);
    }
  }

  lemma {:induction false} SkippedPrefixes(words: seq<Word>, from: nat)
    requires from <= |words|
    ensures var e := SkipPrefixes(words, from);
            && (from < e ==> PrefixWord(words[from].text))
            && (forall k :: from <= k < e ==> PrefixWord(words[k].text) || Argument(words[k].text))
            && (e < |words| ==> !PrefixWord(words[e].text) && (from < e ==> !Argument(words[e].text)))
    decreases |words| - from
  {
    hide Argument;
    if from >= |words| {
    } else {
      PrefixWords(words[from].text);
      if PrefixWord(words[from].text) {
        var next := SkipWords(words, from + 1, IsPrefixArgument);
        SkippedWords(words, from + 1, IsPrefixArgument);
        SkippedPrefixes(words, next);
        forall text
          ensures IsPrefixArgument(text) <==> Argument(text)
        {
          ArgumentExactly(text);
        }
      }
    }
  }

  lemma PrefixWords(text: string)
    ensures PrefixWord(text) <==> text in ["env", "command", "exec"]
  {
  }

  lemma ArgumentExactly(text: string)
    ensures IsPrefixArgument(text) <==> Argument(text)
  {
    hide AssignmentShape, IsAssignment;
    AssignmentExactly(text);
  }

  lemma LeadsFound(words: seq<Word>)
    ensures var a := SkipWords(words, 0, IsAssignment);
            Leads(words, a, SkipPrefixes(words, a))
  {
    hide AssignmentShape, IsAssignment, PrefixWord, Argument;
    var a := SkipWords(words, 0, IsAssignment);
    SkippedWords(words, 0, IsAssignment);
    SkippedPrefixes(words, a);
    forall text
      ensures IsAssignment(text) <==> AssignmentShape(text)
    {
      AssignmentExactly(text);
    }
  }

  /** Word `e` is an interpreter, and only assignments and prefixes stand before it. */
  ghost predicate Runs(words: seq<Word>, e: nat) {
    e < |words| && InterpreterShape(words[e].text) && exists a: nat :: Leads(words, a, e)
  }

  lemma RunsExactly(words: seq<Word>)
    ensures forall e: nat :: DirectInterpreterIndex(words) == e <==> Runs(words, e)
  {
    hide Leads, IsInterpreter, InterpreterShape;
    LeadsFound(words);
    LeadsOnce(words);
    forall text
      ensures IsInterpreter(text) <==> InterpreterShape(text)
    {
      InterpreterExactly(text);
    }
  }

  /** A command runs Python exactly when its interpreter's name, paths apart, is one of the two
      names of Python. */
  lemma PythonExactly(words: seq<Word>)
    ensures RunsPython(words) <==> exists e: nat :: Runs(words, e) && NamesPython(words[e].text)
  {
    hide Runs, DirectInterpreterIndex, InterpreterShape;
    RunsExactly(words);
    var e := DirectInterpreterIndex(words);
    if e >= 0 {
      assert Runs(words, e);
      RunsShape(words, e);
      LastName(words[e].text);
    }
  }

  /** The name itself, or what stands behind the last slash. */
  predicate NamesPython(text: string) {
    || text in {"python", "python3"}
    || exists n :: 0 < n <= |text| && text[n - 1] == '/' && text[n..] in {"python", "python3"}
  }

  lemma RunsShape(words: seq<Word>, e: nat)
    requires Runs(words, e)
    ensures e < |words| && InterpreterShape(words[e].text)
  {
  }

  lemma LastName(text: string)
    requires InterpreterShape(text)
    ensures EndsInPython(text) <==> NamesPython(text)
  {
    hide IsPath, InterpreterWord;
    if InterpreterWord(text) {
      InterpreterNames(text);
      WholeName(text);
    } else {
      var n: nat :| n <= |text| && NamedAfter(text, n);
      NamedAtRoot(text);
      InterpreterNames(text[n..]);
      NameBehind(text, n);
    }
  }

  lemma WholeName(text: string)
    requires text == "python" || text == "python3" || text == "node"
    ensures EndsInPython(text) <==> NamesPython(text)
  {
    if text == "node" {
      assert |text| == 4 && forall k :: 0 <= k < 4 ==> text[k] != '/';
    } else {
      assert text[|text| - |text|..] == text;
    }
  }

  lemma NameBehind(text: string, n: nat)
    requires 0 < n <= |text| && text[n - 1] == '/' && (text[n..] == "python" || text[n..] == "python3" || text[n..] == "node")
    ensures EndsInPython(text) <==> NamesPython(text)
  {
    hide EndsInPython, NamesPython;
    var name := text[n..];
    assert text[|text| - 1] == name[|name| - 1];
    if name == "node" {
      if EndsInPython(text) {
        EndsLast(text);
      }
      if NamesPython(text) {
        NamesLast(text);
      }
    } else {
      assert text[|text| - |name|..] == name;
      PythonBehind(text, n);
    }
  }

  lemma PythonBehind(text: string, n: nat)
    requires 0 < n <= |text| && text[n - 1] == '/' && (text[n..] == "python" || text[n..] == "python3")
    ensures EndsInPython(text) && NamesPython(text)
  {
    assert |text[n..]| == |text| - n;
  }

  lemma EndsLast(text: string)
    requires EndsInPython(text)
    ensures text != "" && text[|text| - 1] in "n3"
  {
    if |text| >= 7 && text[|text| - 7..] == "python3" {
      SuffixLast(text, |text| - 7);
    } else {
      SuffixLast(text, |text| - 6);
    }
  }

  lemma NamesLast(text: string)
    requires NamesPython(text)
    ensures text != "" && text[|text| - 1] in "n3"
  {
    if text == "python" || text == "python3" {
      SuffixLast(text, 0);
    } else {
      var n :| 0 < n <= |text| && text[n - 1] == '/' && text[n..] in {"python", "python3"};
      SuffixLast(text, n);
    }
  }

  lemma SuffixLast(text: string, k: nat)
    requires k <= |text| && (text[k..] == "python" || text[k..] == "python3")
    ensures text != "" && text[|text| - 1] in "n3"
  {
    assert text[|text| - 1] == text[k..][|text| - 1 - k];
  }

  // ---------- the source ----------

  /** Word `f` is the first source flag behind the interpreter `e`. */
  ghost predicate Flagged(words: seq<Word>, e: nat, f: nat) {
    && Runs(words, e) && e < f < |words|
    && FlagShape(words[f].text)
    && forall k :: e < k < f ==> !FlagShape(words[k].text)
  }

  predicate TakenBy(words: seq<Word>, f: nat, w: Word)
    requires f < |words|
  {
    if "--eval=" <= words[f].text then w == words[f].(text := words[f].text[7..])
    else f + 1 < |words| && w == words[f + 1]
  }

  /** The command hands `w` to an interpreter: the rest of an `--eval=` flag, or the word
      behind any other flag. */
  ghost predicate Takes(words: seq<Word>, command: string, w: Word) {
    exists e: nat, f: nat :: Flagged(words, e, f) && command == words[e].text && TakenBy(words, f, w)
  }

  /** The flag is the last word. */
  ghost predicate Lacks(words: seq<Word>, command: string) {
    exists e: nat, f: nat ::
      Flagged(words, e, f) && command == words[e].text && !("--eval=" <= words[f].text) && f + 1 == |words|
  }

  ghost predicate AsksForSource(words: seq<Word>) {
    exists e: nat, f: nat :: Flagged(words, e, f)
  }

  lemma {:induction false} FirstFlagExactly(words: seq<Word>, from: nat)
    requires from <= |words|
    ensures forall k :: from <= k < FirstFlag(words, from) ==> !FlagShape(words[k].text)
    ensures FirstFlag(words, from) < |words| ==> FlagShape(words[FirstFlag(words, from)].text)
    decreases |words| - from
  {
    hide FlagShape, IsSourceFlag;
    if from >= |words| {
    } else {
      FlagExactly(words[from].text);
      FirstFlagExactly(words, from + 1);
    }
  }

  lemma FlaggedExactly(words: seq<Word>)
    ensures forall e: nat, f: nat ::
              Flagged(words, e, f) <==>
              DirectInterpreterIndex(words) == e && f == FirstFlag(words, e + 1) && f < |words|
  {
    hide FlagShape, IsSourceFlag, Runs, DirectInterpreterIndex;
    RunsExactly(words);
    forall e: nat {:trigger FirstFlag(words, e + 1)} | e < |words|
      ensures forall k :: e + 1 <= k < FirstFlag(words, e + 1) ==> !FlagShape(words[k].text)
      ensures FirstFlag(words, e + 1) < |words| ==> FlagShape(words[FirstFlag(words, e + 1)].text)
    {
      FirstFlagExactly(words, e + 1);
    }
  }

  /** The source of a command, word by word: nothing without a flag behind an interpreter, and
      otherwise the word its first flag takes, which may be missing. */
  lemma SourceExactly(words: seq<Word>)
    ensures forall command, w :: SourceOf(words) == Given(command, w) <==> Takes(words, command, w)
    ensures forall command :: SourceOf(words) == Missing(command) <==> Lacks(words, command)
    ensures SourceOf(words) == NoSource <==> !AsksForSource(words)
  {
    hide DirectInterpreterIndex, Flagged, FirstFlag;
    FlaggedExactly(words);
    var e := DirectInterpreterIndex(words);
    if e >= 0 && FirstFlag(words, e + 1) < |words| {
      assert Flagged(words, e, FirstFlag(words, e + 1));
    }
    forall text
      ensures StartsWith(text, "--eval=", 0) <==> "--eval=" <= text
    {
      FlagExactly(text);
    }
  }
}
