/** Command lines written from plain words are scanned into those commands. */
module WrittenCommands {
  import opened Json
  import opened ShellText
  import opened ShellWords
  import opened ShellCommands
  import opened InterpreterExample

  /** A word in which nothing means anything to the shell, and that starts neither a comment nor
      a redirection. */
  predicate IsPlainWord(w: string) {
    && w != "" && w[0] != '#' && !IsDigit(w[0])
    && forall k :: 0 <= k < |w| ==> IsPlain(w[k])
  }

  function WriteCommand(ws: seq<string>): string {
    if ws == [] then "" else " " + ws[0] + WriteCommand(ws[1..])
  }

  function WriteLine(cs: seq<seq<string>>): string {
    if cs == [] then "" else if |cs| == 1 then WriteCommand(cs[0]) else WriteCommand(cs[0]) + ";" + WriteLine(cs[1..])
  }

  predicate IsPlainCommand(ws: seq<string>) {
    ws != [] && forall k :: 0 <= k < |ws| ==> IsPlainWord(ws[k])
  }

  predicate HasTexts(words: seq<Word>, ws: seq<string>) {
    |words| == |ws| && forall k :: 0 <= k < |ws| ==> words[k].text == ws[k]
  }

  function PushAll(cs: seq<seq<Word>>, words: seq<Word>): seq<seq<Word>>
    requires cs != []
  {
    cs[|cs| - 1 := cs[|cs| - 1] + words]
  }

  lemma PushNothing(cs: seq<seq<Word>>)
    requires cs != []
    ensures PushAll(cs, []) == cs
  {
    assert cs[|cs| - 1] + [] == cs[|cs| - 1];
  }

  lemma PushLast(before: seq<seq<Word>>, words: seq<Word>)
    ensures PushAll(before + [[]], words) == before + [words]
  {
    assert [] + words == words;
  }

  lemma WordAhead(text: string, cursor: nat, w: string, rest: string)
    requires cursor <= |text| && text[cursor..] == " " + w + rest && IsPlainWord(w)
    requires rest == "" || rest[0] in " ;"
    ensures var start, end := cursor + 1, cursor + 1 + |w|;
            && PlainWord(text, start, end) && text[start..end] == w && text[start] != '#' && !IsDigit(text[start])
            && IsSpace(text[cursor]) && text[end..] == rest && end + |rest| == |text|
  {
    var start, end := cursor + 1, cursor + 1 + |w|;
    var ahead := text[cursor..];
    assert forall k :: 0 <= k < |ahead| ==> text[cursor + k] == ahead[k];
    assert forall k :: 0 <= k < |w| ==> text[start + k] == w[k];
    assert text[start..end] == w;
    assert forall k :: start <= k < end ==> text[k] == w[k - start];
    if rest != "" {
      assert text[end] == rest[0];
    }
  }

  lemma {:induction false} CommandCollected(text: string, cursor: nat, ws: seq<string>, rest: string, acc: Collected)
    returns (next: Collected, words: seq<Word>)
    requires cursor <= |text| && text[cursor..] == WriteCommand(ws) + rest && acc.Valid()
    requires forall k :: 0 <= k < |ws| ==> IsPlainWord(ws[k])
    requires rest == "" || rest[0] == ';'
    ensures next.Valid() && HasTexts(words, ws)
    ensures cursor + |WriteCommand(ws)| <= |text|
    ensures Collect(text, cursor, acc) == Collect(text, cursor + |WriteCommand(ws)|, next)
    ensures next == acc.(commands := PushAll(acc.commands, words))
    decreases |ws|
  {
    hide Collect, PlainWord, IsPlainWord, IsSpace, IsDigit;
    if ws == [] {
      next, words := acc, [];
      PushNothing(acc.commands);
    } else {
      var w, more := ws[0], WriteCommand(ws[1..]) + rest;
      assert WriteCommand(ws) + rest == " " + w + more;
      assert more == "" || more[0] in " ;";
      WordAhead(text, cursor, w, more);
      var first, one := WordStep(text, cursor, cursor + 1, cursor + 1 + |w|, acc);
      var then_, others := CommandCollected(text, cursor + 1 + |w|, ws[1..], rest, first);
      next, words := then_, [one] + others;
      assert acc.commands[|acc.commands| - 1] + words == (acc.commands[|acc.commands| - 1] + [one]) + others;
    }
  }

  lemma SemicolonAhead(text: string, cursor: nat, rest: string)
    requires cursor <= |text| && text[cursor..] == ";" + rest && rest != "" && rest[0] == ' '
    ensures cursor + 1 < |text| && text[cursor] == ';' && !IsSeparator(text[cursor + 1]) && text[cursor + 1..] == rest
  {
    var ahead := text[cursor..];
    assert ahead[0] == text[cursor] && ahead[1] == text[cursor + 1] && ahead[1..] == rest;
  }

  predicate AreTexts(commands: seq<seq<Word>>, cs: seq<seq<string>>) {
    |commands| == |cs| && forall k :: 0 <= k < |cs| ==> HasTexts(commands[k], cs[k])
  }

  lemma {:induction false} LineCollected(text: string, cursor: nat, cs: seq<seq<string>>, before: seq<seq<Word>>) returns (commands: seq<seq<Word>>)
    requires cursor <= |text| && cs != [] && text[cursor..] == WriteLine(cs)
    requires forall k :: 0 <= k < |cs| ==> IsPlainCommand(cs[k])
    ensures AreTexts(commands, cs)
    ensures Collect(text, cursor, Collected(before + [[]], [], [])) == Collected(before + commands, [], [])
    decreases |cs|, 1
  {
    hide Collect, IsPlainWord, HasTexts, WriteCommand, PushAll, AreTexts, IsSpace;
    var rest := if |cs| == 1 then "" else ";" + WriteLine(cs[1..]);
    var n := |WriteCommand(cs[0])|;
    assert WriteLine(cs) == WriteCommand(cs[0]) + rest;
    var next, words := CommandCollected(text, cursor, cs[0], rest, Collected(before + [[]], [], []));
    PushLast(before, words);
    assert next == Collected(before + [words], [], []);
    assert text[cursor..][n..] == text[cursor + n..] == rest;
    if |cs| == 1 {
      commands := [words];
      AtTheEnd(text, next);
      OneText(words, cs);
    } else {
      var others := RestCollected(text, cursor + n, cs, before, words);
      commands := [words] + others;
      assert (before + [words]) + others == before + commands;
      MoreTexts(words, others, cs);
    }
  }

  lemma OneText(words: seq<Word>, cs: seq<seq<string>>)
    requires |cs| == 1 && HasTexts(words, cs[0])
    ensures AreTexts([words], cs)
  {
  }

  lemma MoreTexts(words: seq<Word>, others: seq<seq<Word>>, cs: seq<seq<string>>)
    requires cs != [] && HasTexts(words, cs[0]) && AreTexts(others, cs[1..])
    ensures AreTexts([words] + others, cs)
  {
    hide HasTexts;
  }

  lemma {:induction false} RestCollected(text: string, cursor: nat, cs: seq<seq<string>>, before: seq<seq<Word>>, words: seq<Word>)
    returns (others: seq<seq<Word>>)
    requires cursor <= |text| && |cs| > 1 && text[cursor..] == ";" + WriteLine(cs[1..])
    requires forall k :: 0 <= k < |cs| ==> IsPlainCommand(cs[k])
    ensures AreTexts(others, cs[1..])
    ensures Collect(text, cursor, Collected(before + [words], [], [])) == Collected((before + [words]) + others, [], [])
    decreases |cs|, 0
  {
    hide Collect, IsPlainWord, HasTexts, WriteCommand, AreTexts;
    LineStarts(cs[1..]);
    SemicolonAhead(text, cursor, WriteLine(cs[1..]));
    SeparatorStep(text, cursor, Collected(before + [words], [], []));
    others := LineCollected(text, cursor + 1, cs[1..], before + [words]);
  }

  lemma LineStarts(cs: seq<seq<string>>)
    requires cs != [] && IsPlainCommand(cs[0])
    ensures WriteLine(cs) != "" && WriteLine(cs)[0] == ' '
  {
  }

  lemma AtTheEnd(text: string, acc: Collected)
    requires acc.Valid()
    ensures Collect(text, |text|, acc) == acc
  {
  }

  lemma {:induction false} NoneEmpty(commands: seq<seq<Word>>, cs: seq<seq<string>>)
    requires AreTexts(commands, cs) && forall k :: 0 <= k < |cs| ==> IsPlainCommand(cs[k])
    ensures NonEmpty(commands) == commands
    decreases |commands|
  {
    hide IsPlainWord;
    if commands == [] {
    } else {
      var n := |commands| - 1;
      assert HasTexts(commands[n], cs[n]) && IsPlainCommand(cs[n]);
      NoneEmpty(commands[..n], cs[..n]);
      assert commands == commands[..n] + [commands[n]];
    }
  }

  /** Scanning gives back the commands a line was written from, word by word: separators part
      them, spaces part their words, and nothing is lost or joined. */
  lemma WrittenScan(cs: seq<seq<string>>)
    requires cs != [] && forall k :: 0 <= k < |cs| ==> IsPlainCommand(cs[k])
    ensures AreTexts(Scan(WriteLine(cs)).commands, cs) && Scan(WriteLine(cs)).heredocs == []
  {
    hide Collect, IsPlainCommand, WriteLine, AreTexts, NonEmpty;
    var text := WriteLine(cs);
    assert text[0..] == text;
    var commands := LineCollected(text, 0, cs, []);
    assert [] + [[]] == START.commands && [] + commands == commands;
    NoneEmpty(commands, cs);
    assert Collect(text, 0, START) == Collected(commands, [], []);
    assert commands + [] == commands;
  }
}
