/** Where the words and heredocs of a command line stand: in the order of the text, apart from
    each other, and inside the substitution they were read from. */
module ShellPlaces {
  import opened Json
  import opened ShellText
  import opened ShellWords
  import opened ShellCommands

  // ---------- one level of a command line ----------

  predicate IsPlaced(t: Token) {
    t.Argument? || t.Delimiting?
  }

  predicate RegionsFit(text: string, t: Token) {
    forall g :: g in RegionsOf(t) ==> |g.text| < |text|
  }

  /** A token's word is the verbatim, non-empty text of its span. */
  predicate StandsIn(text: string, from: nat, t: Token) {
    && IsPlaced(t)
    && from <= t.word.line < t.next <= |text|
    && t.word.raw == text[t.word.line..t.next]
    && Ordered(t.word.regions)
    && forall g :: g in t.word.regions ==>
         t.word.line < g.start && RegionEnd(g) <= t.next && |g.text| < |text| && text[g.start..RegionEnd(g)] == g.text
  }

  lemma TokenStands(text: string, from: nat)
    requires from < |text| && IsPlaced(TokenAt(text, from))
    ensures StandsIn(text, from, TokenAt(text, from))
  {
    hide ReadWord, RedirectionEnd, IndexOf, IsSpace, SkipSpaces, RunEnd, IsSeparator, Ordered;
    var t := TokenAt(text, from);
    assert ReadWord(text, t.word.line) == (t.word, t.next);
  }

  lemma TokenFits(text: string, from: nat)
    requires from < |text|
    ensures RegionsFit(text, TokenAt(text, from))
  {
    hide TokenAt;
    if IsPlaced(TokenAt(text, from)) {
      TokenStands(text, from);
    }
  }

  /** The argument and delimiter words that stand outside every substitution, in order. */
  function Level(text: string, cursor: nat): (ts: seq<Token>)
    requires cursor <= |text|
    ensures forall i :: 0 <= i < |ts| ==> IsPlaced(ts[i]) && RegionsFit(text, ts[i])
    decreases |text| - cursor
  {
    var from := SkipSpaces(text, cursor);
    if from == |text| || TokenAt(text, from).Nothing? then []
    else
      var t := TokenAt(text, from);
      TokenFits(text, from);
      (if IsPlaced(t) then [t] else []) + Level(text, t.next)
  }

  predicate Apart(text: string, from: nat, ts: seq<Token>) {
    && (forall i :: 0 <= i < |ts| ==> StandsIn(text, from, ts[i]))
    && forall i, j :: 0 <= i < j < |ts| ==> ts[i].next <= ts[j].word.line
  }

  /** Along one level the words stand one behind the other: their spans are disjoint and their
      labels strictly increase, arguments and heredoc delimiters alike. */
  lemma {:induction false} LevelApart(text: string, cursor: nat)
    requires cursor <= |text|
    ensures Apart(text, cursor, Level(text, cursor))
    decreases |text| - cursor
  {
    hide TokenAt, StandsIn;
    var from := SkipSpaces(text, cursor);
    if from == |text| || TokenAt(text, from).Nothing? {
    } else {
      var t := TokenAt(text, from);
      var rest := Level(text, t.next);
      LevelApart(text, t.next);
      forall i | 0 <= i < |rest|
        ensures StandsIn(text, cursor, rest[i]) && t.next <= rest[i].word.line
      {
        StandsLater(text, t.next, cursor, rest[i]);
      }
      if IsPlaced(t) {
        TokenStands(text, from);
        StandsLater(text, from, cursor, t);
      }
    }
  }

  lemma StandsLater(text: string, from: nat, earlier: nat, t: Token)
    requires earlier <= from && StandsIn(text, from, t)
    ensures IsPlaced(t) && from <= t.word.line && StandsIn(text, earlier, t)
  {
  }

  // ---------- a scan is its levels ----------

  lemma {:induction false} ConcatNonEmpty(cs: seq<seq<Word>>)
    ensures Concat(NonEmpty(cs)) == Concat(cs)
  {
    if cs == [] {
    } else {
      var init, last := cs[..|cs| - 1], cs[|cs| - 1];
      ConcatNonEmpty(init);
      if last == [] {
        assert NonEmpty(init) + [] == NonEmpty(init);
      } else {
        assert (NonEmpty(init) + [last])[..|NonEmpty(init)|] == NonEmpty(init);
      }
    }
  }

  lemma ConcatPush(cs: seq<seq<Word>>, w: Word)
    requires cs != []
    ensures Concat(PushWord(cs, w)) == Concat(cs) + [w]
  {
    var init, last := cs[..|cs| - 1], cs[|cs| - 1];
    assert PushWord(cs, w)[..|cs| - 1] == init;
    assert Concat(init) + (last + [w]) == (Concat(init) + last) + [w];
  }

  function ArgumentOf(t: Token): seq<Word> {
    if t.Argument? then [t.word] else []
  }

  /** The scan of the substitutions of one token. */
  function Inside(text: string, t: Token): CommandScan
    requires RegionsFit(text, t)
  {
    ScanRegions(RegionsOf(t), |text|)
  }

  function InnerWords(text: string, t: Token): seq<Word>
    requires RegionsFit(text, t)
  {
    if t.Argument? then Concat(Inside(text, t).commands) else []
  }

  /** The words inside the substitutions of a level. */
  function Nested(text: string, ts: seq<Token>): seq<Word>
    requires forall i :: 0 <= i < |ts| ==> RegionsFit(text, ts[i])
  {
    if ts == [] then [] else InnerWords(text, ts[0]) + Nested(text, ts[1..])
  }

  /** A heredoc without what is known only once its command has been read. */
  function Bare(h: Heredoc): Heredoc {
    h.(interpreter := false, owner := [])
  }

  function Bares(hs: seq<Heredoc>): (r: seq<Heredoc>)
    ensures |r| == |hs| && forall i :: 0 <= i < |hs| ==> r[i] == Bare(hs[i])
  {
    seq(|hs|, i requires 0 <= i < |hs| => Bare(hs[i]))
  }

  function HeredocsOf(text: string, t: Token): seq<Heredoc>
    requires RegionsFit(text, t)
  {
    match t
    case Delimiting(word, stripTabs, _) => [Bare(NewHeredoc(word, stripTabs))]
    case Argument(_, _) => Bares(Inside(text, t).heredocs)
    case _ => []
  }

  /** The heredocs of a level and of its substitutions, in the order of the text. */
  function Heredocs(text: string, ts: seq<Token>): seq<Heredoc>
    requires forall i :: 0 <= i < |ts| ==> RegionsFit(text, ts[i])
  {
    if ts == [] then [] else HeredocsOf(text, ts[0]) + Heredocs(text, ts[1..])
  }

  function BaresOf(ps: seq<Pending>): (r: seq<Heredoc>)
    ensures |r| == |ps| && forall i :: 0 <= i < |ps| ==> r[i] == Bare(ps[i].heredoc)
  {
    seq(|ps|, i requires 0 <= i < |ps| => Bare(ps[i].heredoc))
  }

  lemma AddToken(text: string, acc: Collected, t: Token)
    requires acc.Valid() && RegionsFit(text, t)
    ensures var r := Add(acc, t, Inside(text, t));
            && Concat(r.commands) == Concat(acc.commands) + ArgumentOf(t)
            && Concat(r.nested) == Concat(acc.nested) + InnerWords(text, t)
            && BaresOf(r.heredocs) == BaresOf(acc.heredocs) + HeredocsOf(text, t)
  {
    hide PushWord, NewHeredoc, Bare, Inside, Concat;
    var r := Add(acc, t, Inside(text, t));
    match t
    case Argument(word, _) =>
      var inner := Inside(text, t);
      ConcatPush(acc.commands, word);
      ConcatSplit(acc.nested, inner.commands);
      assert BaresOf(acc.heredocs + SettleAll(inner.heredocs)) == BaresOf(acc.heredocs) + Bares(inner.heredocs);
    case Delimiting(word, stripTabs, _) =>
      assert r.heredocs == acc.heredocs + [Own(NewHeredoc(word, stripTabs), |acc.commands| - 1)];
    case Separator(_) =>
      ConcatSplit(acc.commands, [[]]);
      NothingCollected();
    case _ =>
  }

  lemma LevelStep(text: string, t: Token, rest: seq<Token>)
    requires RegionsFit(text, t) && forall i :: 0 <= i < |rest| ==> RegionsFit(text, rest[i])
    ensures var ts := (if IsPlaced(t) then [t] else []) + rest;
            && (forall i :: 0 <= i < |ts| ==> RegionsFit(text, ts[i]))
            && FlatMap(ArgumentOf, ts) == ArgumentOf(t) + FlatMap(ArgumentOf, rest)
            && Nested(text, ts) == InnerWords(text, t) + Nested(text, rest)
            && Heredocs(text, ts) == HeredocsOf(text, t) + Heredocs(text, rest)
  {
    hide Inside, Bare, NewHeredoc, RegionsFit;
    var ts := (if IsPlaced(t) then [t] else []) + rest;
    if IsPlaced(t) {
      assert ts[0] == t && ts[1..] == rest;
    } else {
      assert ts == rest;
    }
  }

  lemma {:induction false} CollectIsLevel(text: string, cursor: nat, acc: Collected)
    requires cursor <= |text| && acc.Valid()
    ensures var r, ts := Collect(text, cursor, acc), Level(text, cursor);
            && Concat(r.commands) == Concat(acc.commands) + FlatMap(ArgumentOf, ts)
            && Concat(r.nested) == Concat(acc.nested) + Nested(text, ts)
            && BaresOf(r.heredocs) == BaresOf(acc.heredocs) + Heredocs(text, ts)
    decreases |text| - cursor
  {
    hide TokenAt, Concat, BaresOf, Add, FlatMap, Nested, Heredocs, ArgumentOf, InnerWords, HeredocsOf, RegionsFit,
         SkipSpaces, RunEnd, ScanRegions, RegionsOf, Collect, Inside;
    CollectStep(text, cursor, acc);
    var from := SkipSpaces(text, cursor);
    if from == |text| || TokenAt(text, from).Nothing? {
      NothingOnLevel(text);
    } else {
      var t := TokenAt(text, from);
      var rest := Level(text, t.next);
      TokenFits(text, from);
      AddToken(text, acc, t);
      LevelStep(text, t, rest);
      CollectIsLevel(text, t.next, Add(acc, t, Inside(text, t)));
    }
  }

  /** One token's part of a level, and of the scan that collects it. */
  lemma CollectStep(text: string, cursor: nat, acc: Collected)
    requires cursor <= |text| && acc.Valid()
    ensures var from := SkipSpaces(text, cursor);
            if from == |text| || TokenAt(text, from).Nothing? then Collect(text, cursor, acc) == acc && Level(text, cursor) == []
            else
              var t := TokenAt(text, from);
              && RegionsFit(text, t)
              && Add(acc, t, Inside(text, t)).Valid()
              && Collect(text, cursor, acc) == Collect(text, t.next, Add(acc, t, Inside(text, t)))
              && Level(text, cursor) == (if IsPlaced(t) then [t] else []) + Level(text, t.next)
  {
    hide TokenAt, Add, SkipSpaces, RunEnd, ScanRegions, RegionsOf, RegionsFit;
    var from := SkipSpaces(text, cursor);
    if from < |text| {
      TokenFits(text, from);
    }
  }

  lemma NothingOnLevel(text: string)
    ensures FlatMap(ArgumentOf, []) == [] && Nested(text, []) == [] && Heredocs(text, []) == []
  {
  }

  /** A scan is read off its levels: the words of the command line itself, in order, then the
      words of its substitutions, and the heredocs of both in the order of the text. */
  lemma ScanIsLevels(text: string)
    ensures Concat(Scan(text).commands) == FlatMap(ArgumentOf, Level(text, 0)) + Nested(text, Level(text, 0))
    ensures Bares(Scan(text).heredocs) == Heredocs(text, Level(text, 0))
  {
    hide Collect, Level, Nested, Heredocs, FlatMap, Concat, NonEmpty, RunsPython;
    CollectIsLevel(text, 0, START);
    var acc := Collect(text, 0, START);
    ConcatNonEmpty(acc.commands + acc.nested);
    ConcatSplit(acc.commands, acc.nested);
    NothingCollected();
    assert Bares(Scan(text).heredocs) == BaresOf(acc.heredocs);
  }

  lemma NothingCollected()
    ensures Concat(START.commands) == Concat(START.nested) == [] && BaresOf(START.heredocs) == []
  {
  }

  // ---------- no two words or heredocs stand at one place ----------

  function Lines(ws: seq<Word>): (r: seq<nat>)
    ensures |r| == |ws| && forall i :: 0 <= i < |ws| ==> r[i] == ws[i].line
  {
    seq(|ws|, i requires 0 <= i < |ws| => ws[i].line)
  }

  function HeredocLines(hs: seq<Heredoc>): (r: seq<nat>)
    ensures |r| == |hs| && forall i :: 0 <= i < |hs| ==> r[i] == hs[i].line
  {
    seq(|hs|, i requires 0 <= i < |hs| => hs[i].line)
  }

  function LabelsOf(ws: seq<Word>, hs: seq<Heredoc>): multiset<nat> {
    multiset(Lines(ws)) + multiset(HeredocLines(hs))
  }

  /** All labels of a scan. */
  function ScanLabelsOf(scan: CommandScan): multiset<nat> {
    LabelsOf(Concat(scan.commands), scan.heredocs)
  }

  /** No label twice, and each within a range. */
  predicate Spread(labels: multiset<nat>, lo: nat, hi: nat) {
    forall x :: x in labels ==> labels[x] == 1 && lo <= x < hi
  }

  lemma SpreadSum(a: multiset<nat>, b: multiset<nat>, lo: nat, mid: nat, hi: nat)
    requires Spread(a, lo, mid) && Spread(b, mid, hi) && lo <= mid <= hi
    ensures Spread(a + b, lo, hi)
  {
  }

  lemma LabelsAppend(ws: seq<Word>, vs: seq<Word>, hs: seq<Heredoc>, gs: seq<Heredoc>)
    ensures LabelsOf(ws + vs, hs + gs) == LabelsOf(ws, hs) + LabelsOf(vs, gs)
  {
    assert Lines(ws + vs) == Lines(ws) + Lines(vs);
    assert HeredocLines(hs + gs) == HeredocLines(hs) + HeredocLines(gs);
  }

  lemma {:induction false} MovedOnce(a: seq<nat>, b: seq<nat>, offset: nat, x: nat)
    requires |a| == |b| && forall i :: 0 <= i < |a| ==> b[i] == offset + a[i]
    ensures multiset(b)[x] == if x >= offset then multiset(a)[x - offset] else 0
  {
    if a == [] {
    } else {
      var n := |a| - 1;
      MovedOnce(a[..n], b[..n], offset, x);
      assert a == a[..n] + [a[n]] && b == b[..n] + [b[n]];
    }
  }

  lemma {:induction false} ConcatRelabel(f: nat -> nat, cs: seq<seq<Word>>)
    ensures Concat(RelabelCommands(f, cs)) == RelabelCommand(f, Concat(cs))
  {
    if cs == [] {
    } else {
      var n := |cs| - 1;
      ConcatRelabel(f, cs[..n]);
      assert RelabelCommands(f, cs)[..n] == RelabelCommands(f, cs[..n]);
    }
  }

  lemma SpreadShift(scan: CommandScan, offset: nat, n: nat)
    requires Spread(ScanLabelsOf(scan), 0, n)
    ensures Spread(ScanLabelsOf(Shift(offset, scan)), offset, offset + n)
  {
    hide Concat;
    ConcatRelabel(Plus(offset), scan.commands);
    var ws, vs := Concat(scan.commands), Concat(Shift(offset, scan).commands);
    var hs, gs := scan.heredocs, Shift(offset, scan).heredocs;
    var before, after := ScanLabelsOf(scan), ScanLabelsOf(Shift(offset, scan));
    forall x | x in after
      ensures after[x] == 1 && offset <= x < offset + n
    {
      MovedOnce(Lines(ws), Lines(vs), offset, x);
      MovedOnce(HeredocLines(hs), HeredocLines(gs), offset, x);
      assert x >= offset ==> after[x] == before[x - offset];
    }
  }

  lemma {:induction false} RegionsSpread(regions: seq<Region>, limit: nat, lo: nat, hi: nat)
    requires Ordered(regions) && lo <= hi
    requires forall g :: g in regions ==> |g.text| < limit && lo <= g.start && RegionEnd(g) <= hi
    ensures Spread(ScanLabelsOf(ScanRegions(regions, limit)), lo, hi)
    decreases limit, 0, |regions|
  {
    hide Concat, Scan;
    if regions == [] {
      NoLabels();
    } else {
      var n := |regions| - 1;
      var init, last := regions[..n], regions[n];
      RegionsSpread(init, limit, lo, last.start);
      ScanSpread(last.text);
      var first, second := ScanRegions(init, limit), Shift(last.start, Scan(last.text));
      SpreadShift(Scan(last.text), last.start, |last.text|);
      ConcatSplit(first.commands, second.commands);
      LabelsAppend(Concat(first.commands), Concat(second.commands), first.heredocs, second.heredocs);
      SpreadWider(ScanLabelsOf(second), last.start, RegionEnd(last), hi);
      SpreadSum(ScanLabelsOf(first), ScanLabelsOf(second), lo, last.start, hi);
    }
  }

  lemma NoLabels()
    ensures ScanLabelsOf(CommandScan([], [])) == multiset{}
  {
  }

  lemma SpreadWider(labels: multiset<nat>, lo: nat, mid: nat, hi: nat)
    requires Spread(labels, lo, mid) && mid <= hi
    ensures Spread(labels, lo, hi)
  {
  }

  function TokenLabels(text: string, t: Token): multiset<nat>
    requires RegionsFit(text, t)
  {
    LabelsOf(ArgumentOf(t) + InnerWords(text, t), HeredocsOf(text, t))
  }

  lemma DelimiterLabels(text: string, t: Token)
    requires RegionsFit(text, t) && t.Delimiting?
    ensures TokenLabels(text, t) == multiset{t.word.line}
  {
    hide NewHeredoc, Concat;
    HeredocLabelled(t.word, t.stripTabs);
    assert ArgumentOf(t) + InnerWords(text, t) == [] && Lines([]) == [];
    assert HeredocLines(HeredocsOf(text, t)) == [t.word.line];
  }

  lemma ArgumentLabels(text: string, t: Token)
    requires RegionsFit(text, t) && t.Argument?
    ensures TokenLabels(text, t) == multiset{t.word.line} + ScanLabelsOf(Inside(text, t))
  {
    hide Inside, Concat;
    var ws, hs := Concat(Inside(text, t).commands), Inside(text, t).heredocs;
    assert Lines([t.word] + ws) == [t.word.line] + Lines(ws);
    assert HeredocLines(Bares(hs)) == HeredocLines(hs);
  }

  lemma {:induction false} TokenSpread(text: string, t: Token)
    requires StandsIn(text, 0, t) && RegionsFit(text, t)
    ensures Spread(TokenLabels(text, t), t.word.line, t.next)
    decreases |text|, 2, 0
  {
    hide Inside, TokenLabels, ScanLabelsOf, Ordered, Spread;
    var at := t.word.line;
    OneLabel(at);
    if t.Delimiting? {
      DelimiterLabels(text, t);
      SpreadWider(multiset{at}, at, at + 1, t.next);
    } else {
      ArgumentLabels(text, t);
      InsideSpread(text, t);
      SpreadSum(multiset{at}, ScanLabelsOf(Inside(text, t)), at, at + 1, t.next);
    }
  }

  lemma OneLabel(at: nat)
    ensures Spread(multiset{at}, at, at + 1)
  {
  }

  lemma {:induction false} InsideSpread(text: string, t: Token)
    requires StandsIn(text, 0, t) && RegionsFit(text, t) && t.Argument?
    ensures Spread(ScanLabelsOf(Inside(text, t)), t.word.line + 1, t.next)
    decreases |text|, 1, 0
  {
    hide Spread, ScanLabelsOf, ScanRegions;
    RegionsSpread(t.word.regions, |text|, t.word.line + 1, t.next);
  }

  lemma HeredocLabelled(word: Word, stripTabs: bool)
    ensures NewHeredoc(word, stripTabs).line == word.line
  {
  }

  function LevelLabels(text: string, ts: seq<Token>): multiset<nat>
    requires forall i :: 0 <= i < |ts| ==> RegionsFit(text, ts[i])
  {
    if ts == [] then multiset{} else TokenLabels(text, ts[0]) + LevelLabels(text, ts[1..])
  }

  lemma {:induction false} LevelSpread(text: string, ts: seq<Token>, from: nat)
    requires Apart(text, from, ts) && from <= |text|
    requires forall i :: 0 <= i < |ts| ==> RegionsFit(text, ts[i])
    ensures Spread(LevelLabels(text, ts), from, |text|)
    decreases |text|, 3, |ts|
  {
    hide TokenLabels, RegionsFit;
    if ts == [] {
    } else {
      var t, rest := ts[0], ts[1..];
      StandsLater(text, from, 0, t);
      TokenSpread(text, t);
      forall i | 0 <= i < |rest|
        ensures StandsIn(text, t.next, rest[i])
      {
        assert rest[i] == ts[i + 1] && StandsIn(text, from, ts[i + 1]);
      }
      LevelSpread(text, rest, t.next);
      SpreadSum(TokenLabels(text, t), LevelLabels(text, rest), t.word.line, t.next, |text|);
    }
  }

  lemma {:induction false} LevelLabelsExactly(text: string, ts: seq<Token>)
    requires forall i :: 0 <= i < |ts| ==> RegionsFit(text, ts[i])
    ensures LevelLabels(text, ts) == LabelsOf(FlatMap(ArgumentOf, ts) + Nested(text, ts), Heredocs(text, ts))
  {
    hide RegionsFit, InnerWords, HeredocsOf, ArgumentOf;
    if ts == [] {
      assert Lines([]) == [] && HeredocLines([]) == [];
    } else {
      var t, rest := ts[0], ts[1..];
      LevelLabelsExactly(text, rest);
      LabelsAppend(ArgumentOf(t), InnerWords(text, t), HeredocsOf(text, t), []);
      LabelsAppend(FlatMap(ArgumentOf, rest), Nested(text, rest), Heredocs(text, rest), []);
      LabelsAppend(ArgumentOf(t), FlatMap(ArgumentOf, rest), HeredocsOf(text, t), Heredocs(text, rest));
      LabelsAppend(InnerWords(text, t), Nested(text, rest), [], []);
      LabelsAppend(FlatMap(ArgumentOf, ts), Nested(text, ts), Heredocs(text, ts), []);
      Padded(HeredocsOf(text, t));
      Padded(Heredocs(text, rest));
      Padded(Heredocs(text, ts));
      Padded([]);
    }
  }

  lemma Padded(hs: seq<Heredoc>)
    ensures hs + [] == hs
  {
  }

  /** In one scan, at whatever depths, no two words, no two heredocs, and no word and heredoc
      have the same label. */
  lemma {:induction false} ScanSpread(text: string)
    ensures Spread(ScanLabelsOf(Scan(text)), 0, |text|)
    decreases |text|, 4, 0
  {
    hide Scan, Level, Concat, FlatMap, Nested, Heredocs, LevelLabels;
    var ts := Level(text, 0);
    LevelApart(text, 0);
    ScanIsLevels(text);
    LevelSpread(text, ts, 0);
    LevelLabelsExactly(text, ts);
    assert HeredocLines(Bares(Scan(text).heredocs)) == HeredocLines(Scan(text).heredocs);
  }

  lemma NoRepeat(s: seq<nat>, i: nat, j: nat)
    requires forall x :: x in multiset(s) ==> multiset(s)[x] == 1
    requires i < j < |s|
    ensures s[i] != s[j]
  {
    var a, b := s[..j], s[j..];
    assert s == a + b;
    assert a[i] in multiset(a) && b[0] in multiset(b);
    assert multiset(s)[s[j]] == multiset(a)[s[j]] + multiset(b)[s[j]];
  }

  /** The place of word `j` of command `i` among all words of a scan. */
  function PlaceOf(cs: seq<seq<Word>>, i: nat, j: nat): (p: nat)
    requires i < |cs| && j < |cs[i]|
  {
    BeginOf(cs, i) + j
  }

  lemma PlacesDiffer(cs: seq<seq<Word>>, i: nat, j: nat, k: nat, l: nat)
    requires i < |cs| && j < |cs[i]| && k < |cs| && l < |cs[k]|
    requires i < k || (i == k && j < l)
    ensures PlaceOf(cs, i, j) < PlaceOf(cs, k, l) < |Concat(cs)|
    ensures Concat(cs)[PlaceOf(cs, i, j)] == cs[i][j] && Concat(cs)[PlaceOf(cs, k, l)] == cs[k][l]
  {
    hide Concat;
    PieceAt(cs, i, j);
    PieceAt(cs, k, l);
    BeginNext(cs, i);
    if i < k {
      BeginsSorted(cs, i + 1, k);
    }
  }

  /** Two words of a scan are two different places of the text. */
  lemma WordsDiffer(text: string, i: nat, j: nat, k: nat, l: nat)
    requires var cs := Scan(text).commands; i < |cs| && j < |cs[i]| && k < |cs| && l < |cs[k]|
    requires i < k || (i == k && j < l)
    ensures Scan(text).commands[i][j].line != Scan(text).commands[k][l].line
  {
    hide Scan, Concat, PlaceOf;
    var cs, hs := Scan(text).commands, Scan(text).heredocs;
    ScanSpread(text);
    PlacesDiffer(cs, i, j, k, l);
    var lines := Lines(Concat(cs));
    forall x | x in multiset(lines)
      ensures multiset(lines)[x] == 1
    {
      assert x in ScanLabelsOf(Scan(text)) && multiset(lines)[x] <= ScanLabelsOf(Scan(text))[x];
    }
    NoRepeat(lines, PlaceOf(cs, i, j), PlaceOf(cs, k, l));
  }

  /** So are two heredocs. */
  lemma HeredocsDiffer(text: string, i: nat, k: nat)
    requires i < k < |Scan(text).heredocs|
    ensures Scan(text).heredocs[i].line != Scan(text).heredocs[k].line
  {
    hide Scan, Concat;
    ScanSpread(text);
    var lines := HeredocLines(Scan(text).heredocs);
    forall x | x in multiset(lines)
      ensures multiset(lines)[x] == 1
    {
      assert x in ScanLabelsOf(Scan(text)) && multiset(lines)[x] <= ScanLabelsOf(Scan(text))[x];
    }
    NoRepeat(lines, i, k);
  }

  /** So are a word and a heredoc. */
  lemma WordAndHeredocDiffer(text: string, i: nat, j: nat, k: nat)
    requires var scan := Scan(text); i < |scan.commands| && j < |scan.commands[i]| && k < |scan.heredocs|
    ensures Scan(text).commands[i][j].line != Scan(text).heredocs[k].line
  {
    hide Scan, Concat, PlaceOf;
    var cs, hs := Scan(text).commands, Scan(text).heredocs;
    ScanSpread(text);
    PieceAt(cs, i, j);
    var words, queue := Lines(Concat(cs)), HeredocLines(hs);
    assert words[BeginOf(cs, i) + j] in multiset(words) && queue[k] in multiset(queue);
    OneOfEach(multiset(words), multiset(queue), words[BeginOf(cs, i) + j], queue[k]);
  }

  lemma OneOfEach(a: multiset<nat>, b: multiset<nat>, x: nat, y: nat)
    requires forall z :: z in a + b ==> (a + b)[z] == 1
    requires x in a && y in b
    ensures x != y
  {
    assert (a + b)[x] == a[x] + b[x];
  }

  // ---------- nested words stay inside ----------

  predicate LiesIn(g: Region, at: nat, n: nat) {
    g.start <= at && at + n <= RegionEnd(g)
  }

  ghost predicate LiesInOne(regions: seq<Region>, at: nat, n: nat) {
    exists k :: 0 <= k < |regions| && LiesIn(regions[k], at, n)
  }

  lemma {:induction false} ConcatAtLabels(text: string, cs: seq<seq<Word>>)
    requires CommandsAtLabels(text, cs)
    ensures CommandAtLabels(text, Concat(cs))
  {
    hide WordAtLabel;
    if cs == [] {
    } else {
      ConcatAtLabels(text, cs[..|cs| - 1]);
    }
  }

  lemma LastRegion(regions: seq<Region>, limit: nat)
    requires regions != [] && forall g :: g in regions ==> |g.text| < limit
    ensures var init, last := regions[..|regions| - 1], regions[|regions| - 1];
            && init + [last] == regions
            && ScanRegions(regions, limit) == Join(ScanRegions(init, limit), Shift(last.start, Scan(last.text)))
  {
    hide Scan;
  }

  lemma {:induction false} WordLies(regions: seq<Region>, limit: nat, i: nat)
    requires forall g :: g in regions ==> |g.text| < limit
    requires i < |Concat(ScanRegions(regions, limit).commands)|
    ensures var w := Concat(ScanRegions(regions, limit).commands)[i]; LiesInOne(regions, w.line, |w.raw|)
    decreases |regions|
  {
    hide Scan, Concat, WordAtLabel, LiesInOne, ScanRegions;
    if regions == [] {
      NoWords(limit);
    } else {
      var n := |regions| - 1;
      var init, last := regions[..n], regions[n];
      LastRegion(regions, limit);
      var first, inner := ScanRegions(init, limit), Scan(last.text);
      ConcatSplit(first.commands, Shift(last.start, inner).commands);
      var ws := Concat(first.commands);
      if i < |ws| {
        WordLies(init, limit, i);
        LiesFurther(init, last, ws[i].line, |ws[i].raw|);
      } else {
        ConcatRelabel(Plus(last.start), inner.commands);
        ScannedWordFits(last.text, i - |ws|);
        var w := Concat(inner.commands)[i - |ws|];
        LiesInLast(init, last, last.start + w.line, |w.raw|);
      }
    }
  }

  lemma ScannedWordFits(text: string, i: nat)
    requires i < |Concat(Scan(text).commands)|
    ensures Concat(Scan(text).commands)[i].line + |Concat(Scan(text).commands)[i].raw| <= |text|
  {
    hide Scan, Concat;
    ScanLabels(text);
    ConcatAtLabels(text, Scan(text).commands);
    assert WordAtLabel(text, Concat(Scan(text).commands)[i]);
  }

  lemma {:induction false} HeredocLies(regions: seq<Region>, limit: nat, i: nat)
    requires forall g :: g in regions ==> |g.text| < limit
    requires i < |ScanRegions(regions, limit).heredocs|
    ensures LiesInOne(regions, ScanRegions(regions, limit).heredocs[i].line, 1)
    decreases |regions|
  {
    hide Scan, LiesInOne, SettledHeredoc, ScanRegions;
    if regions == [] {
      NoWords(limit);
    } else {
      var n := |regions| - 1;
      var init, last := regions[..n], regions[n];
      LastRegion(regions, limit);
      var hs, inner := ScanRegions(init, limit).heredocs, Scan(last.text).heredocs;
      if i < |hs| {
        HeredocLies(init, limit, i);
        LiesFurther(init, last, hs[i].line, 1);
      } else {
        ScanLabels(last.text);
        HeredocFits(last.text, inner[i - |hs|]);
        LiesInLast(init, last, last.start + inner[i - |hs|].line, 1);
      }
    }
  }

  lemma NoWords(limit: nat)
    ensures Concat(ScanRegions([], limit).commands) == [] && ScanRegions([], limit).heredocs == []
  {
  }

  lemma LiesInLast(init: seq<Region>, last: Region, at: nat, n: nat)
    requires LiesIn(last, at, n)
    ensures LiesInOne(init + [last], at, n)
  {
    assert (init + [last])[|init|] == last;
  }

  lemma LiesFurther(init: seq<Region>, last: Region, at: nat, n: nat)
    requires LiesInOne(init, at, n)
    ensures LiesInOne(init + [last], at, n)
  {
    var k :| 0 <= k < |init| && LiesIn(init[k], at, n);
    assert (init + [last])[k] == init[k];
  }

  lemma HeredocFits(text: string, h: Heredoc)
    requires SettledHeredoc(text, h)
    ensures h.line < |text|
  {
  }

  /** What was read inside the substitutions of a word lies inside one of that word's
      regions, and so inside the word itself, behind its first character. */
  lemma NestedInside(text: string, t: Token, i: nat)
    requires StandsIn(text, 0, t) && RegionsFit(text, t) && t.Argument?
    ensures i < |InnerWords(text, t)| ==>
              var w := InnerWords(text, t)[i];
              LiesInOne(t.word.regions, w.line, |w.raw|) && t.word.line < w.line && w.line + |w.raw| <= t.next
    ensures i < |HeredocsOf(text, t)| ==>
              var h := HeredocsOf(text, t)[i];
              LiesInOne(t.word.regions, h.line, 1) && t.word.line < h.line < t.next
  {
    hide ScanRegions, Concat, LiesInOne;
    if i < |InnerWords(text, t)| {
      WordLies(t.word.regions, |text|, i);
      RegionsAreInside(text, t, InnerWords(text, t)[i].line, |InnerWords(text, t)[i].raw|);
    }
    if i < |HeredocsOf(text, t)| {
      HeredocLies(t.word.regions, |text|, i);
      RegionsAreInside(text, t, HeredocsOf(text, t)[i].line, 1);
    }
  }

  lemma RegionsAreInside(text: string, t: Token, at: nat, n: nat)
    requires StandsIn(text, 0, t) && LiesInOne(t.word.regions, at, n)
    ensures t.word.line < at && at + n <= t.next
  {
    var k :| 0 <= k < |t.word.regions| && LiesIn(t.word.regions[k], at, n);
    assert t.word.regions[k] in t.word.regions;
  }
}
