/** What the coverage check reads in the lines and cells of a plan's table, told from their
    characters, and which violation each fault has. */
module ObligationCells {
  import opened Json
  import opened ObligationTable
  import opened ObligationCoverage

  // ---------- fence lines and rows ----------

  predicate AllAre(s: string, c: char) {
    forall k :: 0 <= k < |s| ==> s[k] == c
  }

  predicate IsIndent(s: string) {
    |s| <= 3 && forall k :: 0 <= k < |s| ==> IsSpace(s[k])
  }

  /** At most three spaces, then a run of at least three back ticks or tildes. */
  ghost predicate MarksFence(line: string, m: Marker) {
    exists indent: string, run: string, rest: string ::
      FenceParts(line, m, indent, run, rest)
  }

  predicate FenceParts(line: string, m: Marker, indent: string, run: string, rest: string) {
    && line == indent + run + rest
    && IsIndent(indent) && m.c in "`~" && AllAre(run, m.c) && |run| == m.width >= 3
    && (rest != "" ==> rest[0] != m.c)
  }

  lemma {:induction false} SpacesExactly(line: string)
    ensures var n := SpacesBefore(line); (forall k :: 0 <= k < n ==> IsSpace(line[k])) && (n < |line| ==> !IsSpace(line[n]))
  {
    hide IsSpace;
    if line == "" || !IsSpace(line[0]) {
    } else {
      SpacesExactly(line[1..]);
    }
  }

  lemma {:induction false} RepeatedExactly(s: string)
    ensures var n := Repeated(s); (s != "" ==> n > 0 && AllAre(s[..n], s[0])) && (n < |s| ==> s[n] != s[0])
  {
    if s == "" || |s| == 1 || s[1] != s[0] {
    } else {
      RepeatedExactly(s[1..]);
      assert s[..Repeated(s)] == [s[0]] + s[1..][..Repeated(s) - 1];
    }
  }

  lemma MarkerExactly(line: string, m: Marker)
    ensures MarkerOf(line) == Some(m) <==> MarksFence(line, m)
  {
    hide IsSpace, IsIndent, MarkerOf;
    if MarkerOf(line) == Some(m) {
      MarkerParts(line, m);
    }
    if indent: string, run: string, rest: string :| FenceParts(line, m, indent, run, rest) {
      PartsOfMarker(line, m, indent, run, rest);
    }
  }

  lemma MarkerParts(line: string, m: Marker)
    requires MarkerOf(line) == Some(m)
    ensures MarksFence(line, m)
  {
    hide IsSpace, SpacesBefore, Repeated;
    var n := SpacesBefore(line);
    SpacesExactly(line);
    var s := line[n..];
    RepeatedExactly(s);
    var run, rest := s[..m.width], s[m.width..];
    assert s == run + rest && line == line[..n] + s;
    assert line == line[..n] + run + rest;
    assert AllAre(run, m.c) && |run| == m.width;
    assert rest != "" ==> rest[0] == s[m.width];
    assert IsIndent(line[..n]);
    assert FenceParts(line, m, line[..n], run, rest);
  }

  lemma PartsOfMarker(line: string, m: Marker, indent: string, run: string, rest: string)
    requires FenceParts(line, m, indent, run, rest)
    ensures MarkerOf(line) == Some(m)
  {
    var n := SpacesBefore(line);
    SpacesExactly(line);
    assert line[|indent|] == run[0] && !IsSpace(run[0]);
    assert forall k :: 0 <= k < |indent| ==> line[k] == indent[k];
    assert n == |indent|;
    var s := line[n..];
    assert s == run + rest;
    RepeatedExactly(s);
    assert s[0] == m.c && s[..Repeated(s)] == (run + rest)[..Repeated(s)];
    SameRun(run, rest, m.c);
  }

  lemma SameRun(run: string, rest: string, c: char)
    requires run != "" && AllAre(run, c) && (rest != "" ==> rest[0] != c)
    ensures Repeated(run + rest) == |run|
  {
    var s := run + rest;
    RepeatedExactly(s);
    var n := Repeated(s);
    assert s[0] == c;
    if n > |run| {
      InRun(s, n, |run|, c);
    }
  }

  lemma InRun(s: string, n: nat, k: nat, c: char)
    requires k < n <= |s| && AllAre(s[..n], c)
    ensures s[k] == c
  {
    assert s[..n][k] == s[k];
  }

  predicate IsInner(t: string, inner: string) {
    t == "|" + inner + "|" || (t == "|" + inner && (inner == "" || inner[|inner| - 1] != '|'))
  }

  /** A row's cells: what stands between the first bar and the last, or the end of the line,
      cut at the bars and trimmed. */
  ghost predicate HasCells(line: string, cells: seq<string>) {
    exists inner: string :: IsInner(Trim(line), inner) && cells == TrimAll(Split(inner, '|'))
  }

  lemma InnerOf(t: string)
    requires t != "" && t[0] == '|'
    ensures forall inner :: IsInner(t, inner) <==> inner == if t[1..] != "" && t[|t| - 1] == '|' then t[1..|t| - 1] else t[1..]
  {
    var rest := t[1..];
    forall inner
      ensures IsInner(t, inner) <==> inner == if rest != "" && t[|t| - 1] == '|' then t[1..|t| - 1] else rest
    {
      assert t == "|" + rest;
      if t == "|" + inner + "|" {
        assert t[1..|t| - 1] == inner;
      }
      if t == "|" + inner {
        assert rest == inner;
      }
      if rest != "" && t[|t| - 1] == '|' {
        assert t == "|" + t[1..|t| - 1] + "|";
      }
    }
  }

  lemma RowCells(line: string, cells: seq<string>)
    ensures RowOf(line) == Some(cells) <==> HasCells(line, cells)
  {
    hide Trim, Split, TrimAll, IsInner;
    var t := Trim(line);
    if t != "" && t[0] == '|' {
      InnerOf(t);
      var rest := t[1..];
      var inner := if rest != "" && rest[|rest| - 1] == '|' then rest[..|rest| - 1] else rest;
      assert inner == if rest != "" && t[|t| - 1] == '|' then t[1..|t| - 1] else rest;
      assert IsInner(t, inner);
    } else {
      NoInner(t);
    }
  }

  lemma NoInner(t: string)
    requires t == "" || t[0] != '|'
    ensures forall inner :: !IsInner(t, inner)
  {
  }

  /** Two dashes or more, with a colon in front or behind. */
  ghost predicate SeparatorShape(cell: string) {
    exists a: string, dashes: string, b: string ::
      a in {"", ":"} && b in {"", ":"} && |dashes| >= 2 && AllAre(dashes, '-') && cell == a + dashes + b
  }

  lemma SeparatorExactly(cell: string)
    ensures IsSeparatorCell(cell) <==> SeparatorShape(cell)
  {
    hide WithoutColons;
    if IsSeparatorCell(cell) {
      var a, b := ColonsAround(cell);
      assert AllAre(WithoutColons(cell), '-');
    }
    if a: string, dashes: string, b: string :| a in {"", ":"} && b in {"", ":"} && |dashes| >= 2 && AllAre(dashes, '-') && cell == a + dashes + b {
      ColonsDropped(a, dashes, b);
    }
  }

  lemma ColonsAround(cell: string) returns (a: string, b: string)
    ensures a in {"", ":"} && b in {"", ":"} && cell == a + WithoutColons(cell) + b
  {
    a := if cell != "" && cell[0] == ':' then ":" else "";
    var s := if cell != "" && cell[0] == ':' then cell[1..] else cell;
    b := if s != "" && s[|s| - 1] == ':' then ":" else "";
    assert cell == a + s && s == WithoutColons(cell) + b;
  }

  lemma ColonsDropped(a: string, dashes: string, b: string)
    requires a in {"", ":"} && b in {"", ":"} && dashes != "" && dashes[0] != ':' && dashes[|dashes| - 1] != ':'
    ensures WithoutColons(a + dashes + b) == dashes
  {
    var cell := a + dashes + b;
    var s := if cell[0] == ':' then cell[1..] else cell;
    if a == ":" {
      assert cell[0] == ':' && cell[1..] == dashes + b;
    } else {
      assert cell == dashes + b && cell[0] == dashes[0];
    }
    assert s == dashes + b;
    if b == "" {
      assert s == dashes;
    } else {
      assert s[|s| - 1] == ':' && s[..|s| - 1] == dashes;
    }
  }

  /** The first row is the header, and the data are the rows behind the first separator row. */
  lemma {:induction false} SeparatorFound(table: seq<seq<string>>, from: nat)
    requires from <= |table|
    ensures var i := FirstSeparator(table, from);
            (forall k :: from <= k < i ==> !IsSeparatorRow(table[k])) && (i < |table| ==> IsSeparatorRow(table[i]))
    decreases |table| - from
  {
    hide IsSeparatorRow;
    if from == |table| {
    } else {
      SeparatorFound(table, from + 1);
    }
  }

  lemma DataExactly(table: seq<seq<string>>)
    ensures (forall k :: 1 <= k < |table| ==> !IsSeparatorRow(table[k])) ==> DataRows(table) == []
    ensures forall i :: 1 <= i < |table| && IsSeparatorRow(table[i]) && (forall k :: 1 <= k < i ==> !IsSeparatorRow(table[k])) ==>
                          DataRows(table) == table[i + 1..]
  {
    hide IsSeparatorRow, FirstSeparator;
    if table != [] {
      SeparatorFound(table, 1);
    }
  }

  // ---------- the section ----------

  const TITLE := "architecture obligation coverage"

  /** Spaces around it apart: two hashes, spaces, and the title in any case. */
  ghost predicate TitleShape(line: string) {
    exists gap: string, title: string :: IsTitled(Trim(line), gap, title)
  }

  predicate IsTitled(t: string, gap: string, title: string) {
    t == "##" + gap + title && gap != "" && Blank(gap) && Spells(title, TITLE)
  }

  lemma {:induction false} TrimPadded(gap: string, text: string)
    requires Blank(gap) && text != "" && !IsSpace(text[0])
    ensures TrimStart(gap + text) == text
  {
    hide IsSpace;
    if gap == "" {
      assert gap + text == text;
    } else {
      TrimPadded(gap[1..], text);
      assert (gap + text)[1..] == gap[1..] + text;
    }
  }

  lemma TitleExactly(line: string)
    ensures IsSectionHeading(line) <==> TitleShape(line)
  {
    hide Trim, TrimStart, Spells, Says, IsSpace;
    var t := Trim(line);
    if IsSectionHeading(line) {
      var rest := t[2..];
      var title := TrimStart(rest);
      var gap := rest[..|rest| - |title|];
      SaysSpells(title, TITLE);
      TitleStarts(title);
      assert t[..2] == "##" && t == "##" + rest;
      assert rest == gap + title;
      assert rest[0] == t[2];
      assert gap != "";
      assert t == "##" + gap + title;
      assert IsTitled(t, gap, title);
    }
    if gap: string, title: string :| IsTitled(t, gap, title) {
      TitleStarts(title);
      SaysSpells(title, TITLE);
      assert t[2..] == gap + title && t[2] == gap[0];
      TrimPadded(gap, title);
    }
  }

  lemma TitleStarts(title: string)
    ensures Spells(title, TITLE) ==> title != "" && !IsSpace(title[0])
  {
  }

  /** A line of the section: behind the first titled heading, with no heading of level two
      from there on up to it. */
  lemma SectionExactly(lines: seq<string>, h: nat)
    requires h < |lines| && TitleShape(lines[h]) && forall k :: 0 <= k < h ==> !TitleShape(lines[k])
    ensures forall e: nat :: h < e <= |lines| && (e < |lines| ==> IsLevelTwo(lines[e])) && (forall k :: h < k < e ==> !IsLevelTwo(lines[k])) ==>
                               SectionOf(lines) == lines[h + 1..e]
  {
    hide TitleShape, IsSectionHeading, IsLevelTwo;
    forall k | 0 <= k <= h
      ensures IsSectionHeading(lines[k]) <==> TitleShape(lines[k])
    {
      TitleExactly(lines[k]);
    }
  }

  // ---------- cells ----------

  /** The text is the word but for the case of its letters; the Kelvin sign is a k. */
  predicate Spells(text: string, word: string) {
    |text| == |word| &&
    forall i :: 0 <= i < |text| ==>
      || text[i] == word[i]
      || ('A' <= text[i] <= 'Z' && text[i] as int + 32 == word[i] as int)
      || (text[i] == '\U{212A}' && word[i] == 'k')
  }

  function NameOf(d: Disposition): string {
    match d
    case Task => "task"
    case Existing => "existing"
    case NoChange => "no-change"
  }

  lemma SpellsExactly(text: string, word: string)
    requires forall i :: 0 <= i < |word| ==> !('A' <= word[i] <= 'Z') && word[i] != '\U{212A}'
    ensures LowersTo(text, word) <==> Spells(text, word)
  {
  }

  lemma DispositionExactly(cell: string, d: Disposition)
    ensures ParseDisposition(cell) == Some(d) <==> Spells(Trim(cell), NameOf(d))
  {
    hide Trim, Spells;
    var t := Trim(cell);
    SpellsExactly(t, "task");
    SpellsExactly(t, "existing");
    SpellsExactly(t, "no-change");
    SpellsLong(t);
  }

  lemma SpellsLong(text: string)
    ensures forall word: string :: Spells(text, word) ==> |text| == |word|
    ensures |"task"| == 4 && |"existing"| == 8 && |"no-change"| == 9
  {
  }

  predicate IsText(s: string) {
    s != ""
  }

  /** The cell stands for no task: empty, a dash, or one of two words. */
  predicate NamesNoTask(t: string) {
    t in {"", "-", "\U{2014}"} || Spells(t, "none") || (Spells(t, "n/a"))
  }

  lemma NoTaskExactly(t: string)
    ensures IsEmptyTaskCell(t) <==> NamesNoTask(t)
  {
    SaysSpells(t, "none");
    SaysSpells(t, "n/a");
  }

  lemma SaysSpells(text: string, word: string)
    requires forall i :: 0 <= i < |word| ==> !('A' <= word[i] <= 'Z') && word[i] != 'k' && word[i] != '\U{212A}'
    ensures Says(text, word) <==> Spells(text, word)
  {
  }

  lemma {:induction false} PartsExactly(parts: seq<string>) returns (at: seq<nat>)
    ensures PicksAt(TrimAll(parts), TrimmedParts(parts), IsText, at)
  {
    hide PicksAt, Trim;
    if parts == [] {
      at := [];
      NoParts();
    } else {
      var n := |parts| - 1;
      var before := PartsExactly(parts[..n]);
      assert TrimAll(parts) == TrimAll(parts[..n]) + [Trim(parts[n])];
      PickOneMore(TrimAll(parts[..n]), TrimmedParts(parts[..n]), IsText, before, Trim(parts[n]));
      at := if IsText(Trim(parts[n])) then before + [n] else before;
      assert TrimmedParts(parts[..n]) + [] == TrimmedParts(parts[..n]);
    }
  }

  lemma NoParts()
    ensures PicksAt([], [], IsText, []) && TrimAll([]) == []
  {
  }

  /** The citations of a cell: none when it stands for no task, and otherwise, in order, what
      stands between its commas, trimmed and not empty. */
  lemma CitationsExactly(cell: string) returns (at: seq<nat>)
    ensures if NamesNoTask(Trim(cell)) then Citations(cell) == []
            else PicksAt(TrimAll(Split(Trim(cell), ',')), Citations(cell), IsText, at)
  {
    hide PicksAt, Trim, Split, NamesNoTask;
    NoTaskExactly(Trim(cell));
    at := PartsExactly(Split(Trim(cell), ','));
  }

  /** `task-` in any case, then at least one character, all on one line. */
  predicate CitesTask(citation: string) {
    |citation| > 5 && Spells(citation[..5], "task-") && citation[3] != '\U{212A}'
    && forall k :: 5 <= k < |citation| ==> citation[k] !in "\n\r\U{2028}\U{2029}"
  }

  lemma CitesExactly(citation: string)
    ensures IsTaskCitation(citation) <==> CitesTask(citation)
  {
    if |citation| > 5 {
      var head := citation[..5];
      assert head[3] == citation[3] && "task-"[3] == 'k';
      assert Says(head, "task-") <==> Spells(head, "task-") && head[3] != '\U{212A}';
    }
  }

  lemma CitedId(citation: string)
    ensures CitesTask(citation) ==> TaskId(citation) == Trim(citation[5..])
    ensures !CitesTask(citation) ==> TaskId(citation) == citation
  {
    hide CitesTask, IsTaskCitation, Trim;
    CitesExactly(citation);
    CitesLong(citation);
  }

  lemma CitesLong(citation: string)
    ensures CitesTask(citation) ==> |citation| > 5
  {
  }

  predicate IsQuoted(t: string, inner: string) {
    t == "\"" + inner + "\"" || t == "\U{201C}" + inner + "\U{201D}"
  }

  /** The evidence of a cell is what stands between its quotes, or the whole cell. */
  lemma EvidenceExactly(cell: string)
    ensures forall inner :: IsQuoted(Trim(cell), inner) ==> Unquote(cell) == inner
    ensures (forall inner :: !IsQuoted(Trim(cell), inner)) ==> Unquote(cell) == Trim(cell)
  {
    hide Trim;
    var t := Trim(cell);
    if |t| >= 2 && ((t[0] == '"' && t[|t| - 1] == '"') || (t[0] == '\U{201C}' && t[|t| - 1] == '\U{201D}')) {
      var inner := t[1..|t| - 1];
      assert t == [t[0]] + inner + [t[|t| - 1]];
      assert IsQuoted(t, inner);
    }
  }

  // ---------- whitespace ----------

  /** `gap` or not, a text without spaces comes out as it is behind the gap's one space. */
  lemma {:induction false} CollapseWord(w: string, gap: bool)
    requires w != "" && forall k :: 0 <= k < |w| ==> !IsSpace(w[k])
    ensures Collapse(w, gap) == (if gap then " " else "") + w
  {
    hide IsSpace, Collapse;
    var c, rest := w[0], w[1..];
    assert w == [c] + rest;
    CollapseStep(c, rest, gap);
    if rest == "" {
      CollapseNothing();
    } else {
      CollapseWord(rest, false);
      assert "" + rest == rest;
    }
    assert (if gap then " " else "") + [c] + rest == (if gap then " " else "") + ([c] + rest);
  }

  lemma CollapseStep(c: char, rest: string, gap: bool)
    requires !IsSpace(c)
    ensures Collapse([c] + rest, gap) == (if gap then " " else "") + [c] + Collapse(rest, false)
  {
    assert ([c] + rest)[1..] == rest;
  }

  lemma CollapseNothing()
    ensures Collapse("", false) == "" && Collapse("", true) == " "
  {
  }

  lemma {:induction false} CollapseTwo(a: string, b: string, gap: bool)
    requires b != "" && !IsSpace(b[0])
    ensures Collapse(a + b, gap) == Collapse(a, gap) + Collapse(b, false)
  {
    hide IsSpace;
    if a == "" {
      assert a + b == b;
      if gap {
        assert Collapse(b, true) == [' ', b[0]] + Collapse(b[1..], false);
        assert Collapse(b, false) == [b[0]] + Collapse(b[1..], false);
      }
    } else {
      assert (a + b)[1..] == a[1..] + b && (a + b)[0] == a[0];
      CollapseTwo(a[1..], b, IsSpace(a[0]));
    }
  }

  lemma {:induction false} CollapseSpaces(s: string, gap: bool)
    requires s != "" && Blank(s)
    ensures Collapse(s, gap) == " "
  {
    hide IsSpace;
    if |s| == 1 {
      assert s[1..] == "";
    } else {
      CollapseSpaces(s[1..], true);
    }
  }

  lemma CollapseBehind(w: string, spaces: string, rest: string)
    requires w != "" && (forall k :: 0 <= k < |w| ==> !IsSpace(w[k]))
    requires spaces != "" && Blank(spaces) && rest != "" && !IsSpace(rest[0])
    ensures Collapse(w + spaces + rest, false) == w + " " + Collapse(rest, false)
  {
    hide IsSpace;
    CollapseTwo(w + spaces, rest, false);
    CollapseWordGap(w, spaces);
  }

  lemma {:induction false} CollapseWordGap(w: string, spaces: string)
    requires (forall k :: 0 <= k < |w| ==> !IsSpace(w[k])) && spaces != "" && Blank(spaces)
    ensures Collapse(w + spaces, false) == w + " "
  {
    hide IsSpace;
    if w == "" {
      CollapseSpaces(spaces, false);
      assert w + spaces == spaces;
    } else {
      CollapseWordGap(w[1..], spaces);
      assert (w + spaces)[1..] == w[1..] + spaces;
      assert w == [w[0]] + w[1..];
    }
  }

  predicate IsWord(w: string) {
    w != "" && forall k :: 0 <= k < |w| ==> !IsSpace(w[k])
  }

  /** Words, each with a gap of spaces behind it; only the last gap can be empty. */
  predicate AreSpread(words: seq<string>, gaps: seq<string>) {
    && |gaps| == |words|
    && (forall i :: 0 <= i < |words| ==> IsWord(words[i]) && Blank(gaps[i]))
    && (forall i :: 0 <= i < |words| - 1 ==> gaps[i] != "")
  }

  function Spread(words: seq<string>, gaps: seq<string>): string
    requires |gaps| == |words|
  {
    if words == [] then "" else words[0] + gaps[0] + Spread(words[1..], gaps[1..])
  }

  function Spaced(words: seq<string>): string {
    if words == [] then "" else if |words| == 1 then words[0] else words[0] + " " + Spaced(words[1..])
  }

  lemma {:induction false} SpacedEnds(words: seq<string>)
    requires words != [] && forall i :: 0 <= i < |words| ==> IsWord(words[i])
    ensures var s := Spaced(words); s != "" && !IsSpace(s[0]) && !IsSpace(s[|s| - 1])
  {
    hide IsSpace;
    assert IsWord(words[0]);
    if |words| > 1 {
      SpacedEnds(words[1..]);
    }
  }

  lemma {:induction false} CollapseSpread(words: seq<string>, gaps: seq<string>)
    requires words != [] && AreSpread(words, gaps)
    ensures var s := Spread(words, gaps); s != "" && !IsSpace(s[0])
    ensures Collapse(Spread(words, gaps), false) == Spaced(words) + if gaps[|gaps| - 1] == "" then "" else " "
    decreases |words|
  {
    hide IsSpace, Collapse;
    var w, gap, rest := words[0], gaps[0], Spread(words[1..], gaps[1..]);
    assert IsWord(w) && Blank(gap);
    if |words| == 1 {
      assert Spread(words, gaps) == w + gap;
      CollapseWord(w, false);
      if gap != "" {
        CollapseWordGap(w, gap);
      } else {
        assert w + gap == w;
      }
    } else {
      CollapseSpread(words[1..], gaps[1..]);
      CollapseBehind(w, gap, rest);
      assert gaps[1..][|gaps[1..]| - 1] == gaps[|gaps| - 1];
    }
  }

  lemma TrimEnds(s: string)
    requires s != "" && !IsSpace(s[0]) && !IsSpace(s[|s| - 1])
    ensures Trim(s) == Trim(" " + s) == Trim(s + " ") == Trim(" " + (s + " ")) == s
  {
    SpaceAtEnds(s);
    SpaceAtEnds(s + " ");
    assert TrimStart(s) == s && TrimEnd(s) == s;
    assert (s + " ")[0] == s[0] && TrimStart(s + " ") == s + " ";
  }

  /** Whitespace normalization: whatever spaces stand in front of, between and behind the words
      of a text, one space is left between each two, and none at the ends. */
  lemma NormalizeExactly(lead: string, words: seq<string>, gaps: seq<string>)
    requires Blank(lead) && AreSpread(words, gaps)
    ensures Normalize(lead + Spread(words, gaps)) == Spaced(words)
  {
    hide IsSpace, Collapse, Spread, Spaced, Trim;
    var s := Spread(words, gaps);
    if words == [] {
      NothingSpread(lead);
    } else {
      CollapseSpread(words, gaps);
      CollapseTwo(lead, s, false);
      SpacedEnds(words);
      TrimEnds(Spaced(words));
      if lead == "" {
        CollapseNothing();
        assert "" + Collapse(s, false) == Collapse(s, false);
      } else {
        CollapseSpaces(lead, false);
      }
      assert Spaced(words) + "" == Spaced(words);
    }
  }

  lemma NothingSpread(lead: string)
    requires Blank(lead)
    ensures Normalize(lead + Spread([], [])) == "" == Spaced([])
  {
    assert lead + "" == lead;
    if lead != "" {
      CollapseSpaces(lead, false);
      assert TrimStart(" ") == TrimStart("") by {
        assert " "[1..] == "";
      }
    }
  }

  lemma NormalizedAway(s: string)
    ensures Normalize(s) == "" <==> Blank(s)
  {
    hide Normalize, IsSpace;
    if Blank(s) {
      NothingSpread(s);
      assert s + Spread([], []) == s;
    } else {
      var k := FirstWhere(s, 0, c => !IsSpace(c));
      SomethingLeft(s, k);
    }
  }

  lemma SomethingLeft(s: string, k: nat)
    requires k < |s| && !IsSpace(s[k]) && forall i :: 0 <= i < k ==> IsSpace(s[i])
    ensures Normalize(s) != ""
  {
    var a, b := s[..k], s[k..];
    assert s == a + b;
    CollapseTwo(a, b, false);
    var c := Collapse(s, false);
    assert Collapse(b, false) == [b[0]] + Collapse(b[1..], false);
    assert c[|Collapse(a, false)|] == b[0];
    assert !Blank(c);
    TrimKeepsText(c);
  }

  // ---------- rows that cover ----------

  ghost predicate IsInfix(part: string, s: string) {
    exists before: string, behind: string :: s == before + part + behind
  }

  /** A check of a cited task holds the evidence, whitespace apart. */
  ghost predicate HoldsEvidence(cell: string, evidence: string, doneWhen: map<string, seq<string>>) {
    exists i, j :: HoldsAt(Citations(cell), evidence, doneWhen, i, j)
  }

  ghost predicate HoldsAt(cs: seq<string>, evidence: string, doneWhen: map<string, seq<string>>, i: int, j: int) {
    && 0 <= i < |cs| && TaskId(cs[i]) in doneWhen
    && 0 <= j < |doneWhen[TaskId(cs[i])]|
    && IsInfix(Normalize(evidence), Normalize(doneWhen[TaskId(cs[i])][j]))
  }

  predicate AllCited(cs: seq<string>, doneWhen: map<string, seq<string>>) {
    forall i :: 0 <= i < |cs| ==> CitesTask(cs[i]) && TaskId(cs[i]) in doneWhen
  }

  /** Four cells: the decision, the disposition, its tasks and the evidence.  A task disposition
      cites tasks of the plan, all properly, and its evidence is in one of their checks; any
      other cites none. */
  ghost predicate CoversInCells(cells: seq<string>, doneWhen: map<string, seq<string>>) {
    && |cells| == 4
    && !Blank(Unquote(cells[3]))
    && var cs := Citations(cells[2]);
       || (&& Spells(Trim(cells[1]), "task") && |cs| > 0
           && AllCited(cs, doneWhen)
           && HoldsEvidence(cells[2], Unquote(cells[3]), doneWhen))
       || ((Spells(Trim(cells[1]), "existing") || Spells(Trim(cells[1]), "no-change")) && |cs| == 0)
  }

  lemma InfixExactly(s: string, part: string)
    ensures Contains(s, part) <==> IsInfix(part, s)
  {
    if Contains(s, part) {
      var i: nat :| i <= |s| && PartAt(s, part, i);
      assert s == s[..i] + part + s[i + |part|..];
    }
    if before: string, behind: string :| s == before + part + behind {
      assert s[|before|..|before| + |part|] == part;
      assert PartAt(s, part, |before|);
    }
  }

  lemma GroundedExactly(cells: seq<string>, n: nat, doneWhen: map<string, seq<string>>)
    requires |cells| == 4
    ensures Grounded(MappingOf(cells, n), doneWhen) <==> HoldsEvidence(cells[2], Unquote(cells[3]), doneWhen)
  {
    hide Citations, Unquote, Normalize, ParseDisposition, DecisionId, TaskId, Contains, IsInfix;
    forall s, part
      ensures Contains(s, part) <==> IsInfix(part, s)
    {
      InfixExactly(s, part);
    }
    var m, cs := MappingOf(cells, n), Citations(cells[2]);
    if Grounded(m, doneWhen) {
      var i, j :| 0 <= i < |m.taskIds| && m.taskIds[i] in doneWhen && 0 <= j < |doneWhen[m.taskIds[i]]|
                  && Contains(Normalize(doneWhen[m.taskIds[i]][j]), Normalize(m.evidence));
      assert HoldsAt(cs, m.evidence, doneWhen, i, j);
    }
    if i, j :| HoldsAt(cs, m.evidence, doneWhen, i, j) {
      assert m.taskIds[i] == TaskId(cs[i]);
      assert Contains(Normalize(doneWhen[m.taskIds[i]][j]), Normalize(m.evidence));
    }
  }

  lemma CitedExactly(cells: seq<string>, n: nat, doneWhen: map<string, seq<string>>)
    requires |cells| == 4
    ensures AllCited(Citations(cells[2]), doneWhen) <==> AllCitationsValid(Citations(cells[2])) && AllDone(MappingOf(cells, n), doneWhen)
  {
    hide Citations, Unquote, Normalize, ParseDisposition, DecisionId, TaskId, CitesTask, IsTaskCitation;
    forall c
      ensures IsTaskCitation(c) <==> CitesTask(c)
    {
      CitesExactly(c);
    }
    var m, cs := MappingOf(cells, n), Citations(cells[2]);
    assert forall i :: 0 <= i < |cs| ==> m.taskIds[i] == TaskId(cs[i]);
    if AllDone(m, doneWhen) {
      assert forall i :: 0 <= i < |cs| ==> m.taskIds[i] in doneWhen;
    }
  }

  lemma CoversExactly(cells: seq<string>, n: nat, doneWhen: map<string, seq<string>>)
    ensures RowCovers(cells, n, doneWhen) <==> CoversInCells(cells, doneWhen)
  {
    hide Citations, Unquote, Normalize, ParseDisposition, DecisionId, TaskId, Grounded, HoldsEvidence, Spells, AllCited, AllCitationsValid, AllDone, Trim, Blank;
    if |cells| == 4 {
      GroundedExactly(cells, n, doneWhen);
      NormalizedAway(Unquote(cells[3]));
      CitedExactly(cells, n, doneWhen);
      DispositionExactly(cells[1], Task);
      DispositionExactly(cells[1], Existing);
      DispositionExactly(cells[1], NoChange);
      match ParseDisposition(cells[1]) {
        case None =>
        case Some(Task) =>
        case Some(_) =>
      }
    }
  }

  // ---------- which violation a fault has ----------

  predicate IsDisposition(cell: string) {
    Spells(Trim(cell), "task") || Spells(Trim(cell), "existing") || Spells(Trim(cell), "no-change")
  }

  /** What is wrong with a row by itself. */
  predicate RowFault(cells: seq<string>, reason: Reason) {
    if |cells| != 4 then reason == MalformedRow
    else
      var cs := Citations(cells[2]);
      match reason
      case InvalidDisposition => !IsDisposition(cells[1])
      case TaskRequired => Spells(Trim(cells[1]), "task") && |cs| == 0
      case InvalidTaskCitation => exists i :: 0 <= i < |cs| && !CitesTask(cs[i])
      case UnexpectedTask => (Spells(Trim(cells[1]), "existing") || Spells(Trim(cells[1]), "no-change")) && |cs| > 0
      case EvidenceMissing => Blank(Unquote(cells[3]))
      case _ => false
  }

  /** What is wrong with a row against the required decisions and the plan's checks. */
  ghost predicate PlanFault(cells: seq<string>, n: nat, required: seq<string>, doneWhen: map<string, seq<string>>, reason: Reason)
    requires |cells| == 4
  {
    var cs := Citations(cells[2]);
    match reason
    case Invented => DecisionId(cells, n) !in required
    case TaskMissing =>
      && DecisionId(cells, n) in required && Spells(Trim(cells[1]), "task")
      && exists i :: 0 <= i < |cs| && TaskId(cs[i]) !in doneWhen
    case EvidenceUngrounded =>
      && DecisionId(cells, n) in required && Spells(Trim(cells[1]), "task") && |cs| > 0
      && (forall i :: 0 <= i < |cs| ==> TaskId(cs[i]) in doneWhen)
      && !Blank(Unquote(cells[3])) && !HoldsEvidence(cells[2], Unquote(cells[3]), doneWhen)
    case _ => false
  }

  lemma WhenIn(condition: bool, id: string, reason: Reason, v: Violation)
    ensures v in When(condition, id, reason) <==> condition && v == Violation(id, reason)
  {
  }

  lemma RowReasons(cells: seq<string>, n: nat, v: Violation)
    ensures v in RowViolations(cells, n) <==> v.decisionId == DecisionId(cells, n) && RowFault(cells, v.reason)
  {
    hide Citations, Unquote, Normalize, ParseDisposition, DecisionId, CitesTask, IsTaskCitation, Spells, Trim, Blank, When;
    if |cells| == 4 {
      var m, id, cs := MappingOf(cells, n), DecisionId(cells, n), Citations(cells[2]);
      NormalizedAway(Unquote(cells[3]));
      forall c
        ensures IsTaskCitation(c) <==> CitesTask(c)
      {
        CitesExactly(c);
      }
      DispositionExactly(cells[1], Task);
      DispositionExactly(cells[1], Existing);
      DispositionExactly(cells[1], NoChange);
      WhenIn(m.disposition.None?, id, InvalidDisposition, v);
      WhenIn(m.disposition == Some(Task) && m.taskIds == [], id, TaskRequired, v);
      WhenIn(!AllCitationsValid(cs), id, InvalidTaskCitation, v);
      WhenIn((m.disposition == Some(Existing) || m.disposition == Some(NoChange)) && m.taskIds != [], id, UnexpectedTask, v);
      WhenIn(Normalize(m.evidence) == "", id, EvidenceMissing, v);
      match ParseDisposition(cells[1]) {
        case None =>
        case Some(Task) =>
        case Some(_) =>
      }
    }
  }

  lemma PlanReasons(cells: seq<string>, n: nat, required: seq<string>, doneWhen: map<string, seq<string>>, v: Violation)
    requires |cells| == 4
    ensures v in GroundingViolations(MappingOf(cells, n), required, doneWhen) <==>
              v.decisionId == DecisionId(cells, n) && PlanFault(cells, n, required, doneWhen, v.reason)
  {
    hide Citations, Unquote, Normalize, ParseDisposition, DecisionId, TaskId, Spells, Trim, Blank, When, Grounded, HoldsEvidence;
    var m, cs := MappingOf(cells, n), Citations(cells[2]);
    NormalizedAway(Unquote(cells[3]));
    GroundedExactly(cells, n, doneWhen);
    DispositionExactly(cells[1], Task);
    WhenIn(!Grounded(m, doneWhen), m.decisionId, EvidenceUngrounded, v);
    assert forall i :: 0 <= i < |cs| ==> m.taskIds[i] == TaskId(cs[i]);
    assert AllDone(m, doneWhen) <==> forall i :: 0 <= i < |cs| ==> TaskId(cs[i]) in doneWhen;
  }

  predicate TwoAt(ids: seq<string>, id: string) {
    exists j, k :: 0 <= j < k < |ids| && ids[j] == ids[k] == id
  }

  lemma {:induction false} CountTwo(ids: seq<string>, id: string)
    ensures CountOf(ids, id) > 1 <==> TwoAt(ids, id)
  {
    if ids == [] {
    } else {
      var n := |ids| - 1;
      CountTwo(ids[..n], id);
      CountNone(ids[..n], id);
      if CountOf(ids, id) > 1 && CountOf(ids[..n], id) == 1 {
        var j :| 0 <= j < n && ids[..n][j] == id;
        assert ids[j] == ids[n] == id;
      }
      if TwoAt(ids[..n], id) {
        var j, k :| 0 <= j < k < n && ids[..n][j] == ids[..n][k] == id;
        assert ids[j] == ids[k] == id;
      }
      if j, k :| 0 <= j < k < |ids| && ids[j] == ids[k] == id {
        assert ids[..n][j] == id;
        if k < n {
          assert ids[..n][k] == id;
        }
      }
    }
  }

  lemma {:induction false} RequiredReasons(ids: seq<string>, required: seq<string>, v: Violation)
    ensures v in RequiredViolations(ids, required) <==>
              v.decisionId in required && ((v.reason == MissingRow && v.decisionId !in ids) || (v.reason == Duplicate && TwoAt(ids, v.decisionId)))
  {
    hide CountOf, TwoAt, When;
    if required == [] {
    } else {
      var n := |required| - 1;
      RequiredReasons(ids, required[..n], v);
      assert required == required[..n] + [required[n]];
      CountNone(ids, required[n]);
      CountTwo(ids, required[n]);
      WhenIn(CountOf(ids, required[n]) == 0, required[n], MissingRow, v);
      WhenIn(CountOf(ids, required[n]) > 1, required[n], Duplicate, v);
    }
  }

  // ---------- all violations of a table ----------

  /** The mappings are those of the rows with four cells, which stand at the places `at`. */
  predicate AreMapped(rows: seq<seq<string>>, ms: seq<Mapping>, at: seq<nat>) {
    && |ms| == |at|
    && (forall j :: 0 <= j < |at| ==> IsMapped(rows, ms[j], at[j]))
    && (forall j, k :: 0 <= j < k < |at| ==> at[j] < at[k])
    && (forall k :: 0 <= k < |rows| ==> HasFour(rows, k) ==> k in at)
  }

  predicate HasFour(rows: seq<seq<string>>, k: int) {
    0 <= k < |rows| && |rows[k]| == 4
  }

  predicate IsMapped(rows: seq<seq<string>>, m: Mapping, k: nat) {
    k < |rows| && |rows[k]| == 4 && m == MappingOf(rows[k], k + 1)
  }

  lemma {:induction false} MappingPlaces(rows: seq<seq<string>>) returns (at: seq<nat>)
    ensures AreMapped(rows, ParseRows(rows).mappings, at)
  {
    hide MappingOf, RowViolations, AreMapped;
    if rows == [] {
      at := [];
      NothingMapped();
    } else {
      var n := |rows| - 1;
      var before := MappingPlaces(rows[..n]);
      var ms := ParseRows(rows[..n]).mappings;
      assert rows == rows[..n] + [rows[n]];
      assert ms + [] == ms;
      if |rows[n]| == 4 {
        at := before + [n];
        StillMapped(rows[..n], rows[n]);
        MapOneMore(rows[..n], rows[n], ms, before, MappingOf(rows[n], n + 1));
      } else {
        at := before;
        MapNoMore(rows[..n], rows[n], ms, before);
      }
    }
  }

  lemma NothingMapped()
    ensures AreMapped([], [], [])
  {
  }

  lemma MapNoMore(rows: seq<seq<string>>, cells: seq<string>, ms: seq<Mapping>, at: seq<nat>)
    requires AreMapped(rows, ms, at) && |cells| != 4
    ensures AreMapped(rows + [cells], ms, at)
  {
    hide IsMapped, HasFour;
    StillMapped(rows, cells);
    forall j | 0 <= j < |at|
      ensures IsMapped(rows + [cells], ms[j], at[j])
    {
      assert IsMapped(rows, ms[j], at[j]);
    }
    forall k | 0 <= k < |rows + [cells]| && HasFour(rows + [cells], k)
      ensures k in at
    {
      assert HasFour(rows, k) ==> k in at;
    }
  }

  lemma MapOneMore(rows: seq<seq<string>>, cells: seq<string>, ms: seq<Mapping>, at: seq<nat>, m: Mapping)
    requires AreMapped(rows, ms, at) && IsMapped(rows + [cells], m, |rows|)
    ensures AreMapped(rows + [cells], ms + [m], at + [|rows|])
  {
    hide IsMapped, HasFour;
    StillMapped(rows, cells);
    var more, places := rows + [cells], at + [|rows|];
    forall j | 0 <= j < |places|
      ensures IsMapped(more, (ms + [m])[j], places[j])
    {
      assert j < |at| ==> IsMapped(rows, ms[j], at[j]);
    }
    forall j, k | 0 <= j < k < |places|
      ensures places[j] < places[k]
    {
      assert IsMapped(rows, ms[j], at[j]);
    }
    forall k | 0 <= k < |more| && HasFour(more, k)
      ensures k in places
    {
      assert places[|at|] == |rows|;
      assert HasFour(rows, k) ==> k in at;
    }
  }

  lemma StillMapped(rows: seq<seq<string>>, cells: seq<string>)
    ensures forall m, k: nat :: IsMapped(rows, m, k) ==> IsMapped(rows + [cells], m, k) && k < |rows|
    ensures |cells| == 4 ==> IsMapped(rows + [cells], MappingOf(cells, |rows| + 1), |rows|)
    ensures forall k :: HasFour(rows + [cells], k) <==> HasFour(rows, k) || (k == |rows| && |cells| == 4)
    ensures forall k :: HasFour(rows, k) ==> 0 <= k < |rows|
  {
    hide MappingOf;
  }

  /** Row `k` has four cells and names the decision. */
  predicate Maps(rows: seq<seq<string>>, k: int, id: string) {
    0 <= k < |rows| && |rows[k]| == 4 && DecisionId(rows[k], k + 1) == id
  }

  ghost predicate HasRowFault(rows: seq<seq<string>>, v: Violation) {
    exists k :: 0 <= k < |rows| && v.decisionId == DecisionId(rows[k], k + 1) && RowFault(rows[k], v.reason)
  }

  ghost predicate HasPlanFault(rows: seq<seq<string>>, required: seq<string>, doneWhen: map<string, seq<string>>, v: Violation) {
    exists k :: Maps(rows, k, v.decisionId) && PlanFault(rows[k], k + 1, required, doneWhen, v.reason)
  }

  ghost predicate HasCountFault(rows: seq<seq<string>>, required: seq<string>, v: Violation) {
    && v.decisionId in required
    && match v.reason
       case MissingRow => forall k :: !Maps(rows, k, v.decisionId)
       case Duplicate => exists j, k :: j < k && Maps(rows, j, v.decisionId) && Maps(rows, k, v.decisionId)
       case _ => false
  }

  lemma {:induction false} RowFaults(rows: seq<seq<string>>, v: Violation)
    ensures v in ParseRows(rows).violations <==> HasRowFault(rows, v)
  {
    hide RowViolations, MappingOf, DecisionId, RowFault;
    if rows == [] {
    } else {
      var n := |rows| - 1;
      RowFaults(rows[..n], v);
      RowReasons(rows[n], n + 1, v);
      assert forall k :: 0 <= k < n ==> rows[..n][k] == rows[k];
      if HasRowFault(rows[..n], v) {
        var k :| 0 <= k < n && v.decisionId == DecisionId(rows[..n][k], k + 1) && RowFault(rows[..n][k], v.reason);
        assert v.decisionId == DecisionId(rows[k], k + 1);
      }
    }
  }

  lemma {:induction false} GroundingIn(ms: seq<Mapping>, required: seq<string>, doneWhen: map<string, seq<string>>, v: Violation)
    ensures v in AllGrounding(ms, required, doneWhen) <==>
              exists j :: 0 <= j < |ms| && v in GroundingViolations(ms[j], required, doneWhen)
  {
    hide GroundingViolations;
    if ms == [] {
    } else {
      var n := |ms| - 1;
      GroundingIn(ms[..n], required, doneWhen, v);
      assert forall j :: 0 <= j < n ==> ms[..n][j] == ms[j];
    }
  }

  lemma PlanFaults(rows: seq<seq<string>>, ms: seq<Mapping>, at: seq<nat>, required: seq<string>, doneWhen: map<string, seq<string>>, v: Violation)
    requires AreMapped(rows, ms, at)
    ensures v in AllGrounding(ms, required, doneWhen) <==> HasPlanFault(rows, required, doneWhen, v)
  {
    hide GroundingViolations, MappingOf, DecisionId, PlanFault;
    GroundingIn(ms, required, doneWhen, v);
    forall j | 0 <= j < |ms|
      ensures v in GroundingViolations(ms[j], required, doneWhen) <==>
                Maps(rows, at[j], v.decisionId) && PlanFault(rows[at[j]], at[j] + 1, required, doneWhen, v.reason)
    {
      PlanReasons(rows[at[j]], at[j] + 1, required, doneWhen, v);
    }
    if HasPlanFault(rows, required, doneWhen, v) {
      var k :| Maps(rows, k, v.decisionId) && PlanFault(rows[k], k + 1, required, doneWhen, v.reason);
      assert HasFour(rows, k);
      var j :| 0 <= j < |at| && at[j] == k;
      assert v in GroundingViolations(ms[j], required, doneWhen);
    }
  }

  /** Where the mapped ids come from. */
  predicate IdsFrom(rows: seq<seq<string>>, ids: seq<string>, at: seq<nat>) {
    && |ids| == |at|
    && (forall j :: 0 <= j < |at| ==> Maps(rows, at[j], ids[j]))
    && (forall j, k :: 0 <= j < k < |at| ==> at[j] < at[k])
    && (forall k :: 0 <= k < |rows| ==> HasFour(rows, k) ==> k in at)
  }

  lemma MappedIds(rows: seq<seq<string>>, ms: seq<Mapping>, at: seq<nat>)
    requires AreMapped(rows, ms, at)
    ensures IdsFrom(rows, Ids(ms), at)
  {
    hide DecisionId, ParseDisposition, Citations, Unquote, TaskIds;
  }

  lemma PlaceOf(rows: seq<seq<string>>, ids: seq<string>, at: seq<nat>, k: int, id: string) returns (j: nat)
    requires IdsFrom(rows, ids, at) && Maps(rows, k, id)
    ensures j < |ids| == |at| && at[j] == k && ids[j] == id
  {
    hide DecisionId;
    assert HasFour(rows, k);
    var i :| 0 <= i < |at| && at[i] == k;
    assert Maps(rows, at[i], ids[i]);
    j := i;
  }

  lemma NoneMapped(rows: seq<seq<string>>, ids: seq<string>, at: seq<nat>, id: string)
    requires IdsFrom(rows, ids, at)
    ensures id !in ids <==> forall k :: !Maps(rows, k, id)
  {
    hide Maps;
    if k :| Maps(rows, k, id) {
      var j := PlaceOf(rows, ids, at, k, id);
    }
    if id in ids {
      var j :| 0 <= j < |ids| && ids[j] == id;
      assert Maps(rows, at[j], id);
    }
  }

  lemma TwoMapped(rows: seq<seq<string>>, ids: seq<string>, at: seq<nat>, id: string)
    requires IdsFrom(rows, ids, at)
    ensures TwoAt(ids, id) <==> exists j, k :: j < k && Maps(rows, j, id) && Maps(rows, k, id)
  {
    hide Maps;
    if j, k :| j < k && Maps(rows, j, id) && Maps(rows, k, id) {
      var a := PlaceOf(rows, ids, at, j, id);
      var b := PlaceOf(rows, ids, at, k, id);
      assert a < b && ids[a] == ids[b] == id;
    }
    if j, k :| 0 <= j < k < |ids| && ids[j] == ids[k] == id {
      assert Maps(rows, at[j], id) && Maps(rows, at[k], id) && at[j] < at[k];
    }
  }

  lemma CountFaults(rows: seq<seq<string>>, ms: seq<Mapping>, at: seq<nat>, required: seq<string>, v: Violation)
    requires AreMapped(rows, ms, at)
    ensures v in RequiredViolations(Ids(ms), required) <==> HasCountFault(rows, required, v)
  {
    hide Maps, TwoAt, IdsFrom, AreMapped, RequiredViolations;
    MappedIds(rows, ms, at);
    RequiredReasons(Ids(ms), required, v);
    NoneMapped(rows, Ids(ms), at, v.decisionId);
    TwoMapped(rows, Ids(ms), at, v.decisionId);
  }

  /** Every violation the check reports and no other: a fault of a row by itself, a required
      decision with no row or with two, and a fault of a row against the plan. */
  lemma ViolationsExactly(table: seq<seq<string>>, required: seq<string>, doneWhen: map<string, seq<string>>, v: Violation)
    ensures v in Violations(table, required, doneWhen) <==>
              || HasRowFault(DataRows(table), v)
              || HasCountFault(DataRows(table), required, v)
              || HasPlanFault(DataRows(table), required, doneWhen, v)
  {
    hide DataRows, ParseRows, RequiredViolations, AllGrounding, HasRowFault, HasCountFault, HasPlanFault, AreMapped;
    var rows := DataRows(table);
    var at := MappingPlaces(rows);
    var ms := ParseRows(rows).mappings;
    RowFaults(rows, v);
    CountFaults(rows, ms, at, required, v);
    PlanFaults(rows, ms, at, required, doneWhen, v);
  }
}
