/** The coverage table inside a plan: the lines outside fenced code, the lines of the
    coverage section, and the cells of its rows. */
module ObligationTable {
  import opened Json

  // ---------- lines outside fences ----------

  /** A fence's character and its width. */
  datatype Marker = Marker(c: char, width: nat)

  function SpacesBefore(line: string): (n: nat)
    ensures n <= |line|
  {
    if line != "" && IsSpace(line[0]) then 1 + SpacesBefore(line[1..]) else 0
  }

  /** How often the first character is repeated. */
  function Repeated(s: string): (n: nat)
    ensures n <= |s|
  {
    if s == "" then 0 else if |s| == 1 || s[1] != s[0] then 1 else 1 + Repeated(s[1..])
  }

  /** The match of ``/^\s{0,3}(`{3,}|~{3,})/``. */
  function MarkerOf(line: string): Option<Marker> {
    var n := SpacesBefore(line);
    var rest := line[n..];
    if n <= 3 && Repeated(rest) >= 3 && (rest[0] == '`' || rest[0] == '~') then Some(Marker(rest[0], Repeated(rest))) else None
  }

  predicate Closes(m: Marker, fence: Marker) {
    m.c == fence.c && m.width >= fence.width
  }

  /** The fence that is open in front of line `i`. */
  function FenceBefore(lines: seq<string>, i: nat): Option<Marker>
    requires i <= |lines|
  {
    if i == 0 then None
    else
      var fence, m := FenceBefore(lines, i - 1), MarkerOf(lines[i - 1]);
      if m.None? then fence
      else if fence.None? then m
      else if Closes(m.value, fence.value) then None
      else fence
  }

  predicate IsKept(lines: seq<string>, i: nat)
    requires i < |lines|
  {
    MarkerOf(lines[i]).None? && FenceBefore(lines, i).None?
  }

  function Kept(lines: seq<string>, n: nat): seq<string>
    requires n <= |lines|
  {
    if n == 0 then [] else Kept(lines, n - 1) + (if IsKept(lines, n - 1) then [lines[n - 1]] else [])
  }

  method LinesOutsideFences(text: string) returns (kept: seq<string>)
    ensures kept == Kept(SplitLines(text), |SplitLines(text)|)
  {
    hide MarkerOf, SplitLines;
    var lines := SplitLines(text);
    kept := [];
    var fence: Option<Marker> := None;
    for i := 0 to |lines|
      invariant fence == FenceBefore(lines, i)
      invariant kept == Kept(lines, i)
    {
      var m := MarkerOf(lines[i]);
      if m.Some? {
        if fence.None? {
          fence := m;
        } else if Closes(m.value, fence.value) {
          fence := None;
        }
        continue;
      }
      if fence.None? {
        kept := kept + [lines[i]];
      }
    }
  }

  /** Line `o` opens the fence that line `i` lies in: no fence is open in front of it, and no
      line between them closes it. */
  predicate OpensFor(lines: seq<string>, o: nat, i: nat) {
    && o < i <= |lines|
    && FenceBefore(lines, o).None? && MarkerOf(lines[o]).Some?
    && forall k :: o < k < i ==> !ClosesAt(lines, o, k)
  }

  predicate ClosesAt(lines: seq<string>, o: nat, k: nat)
    requires o < |lines| && k < |lines| && MarkerOf(lines[o]).Some?
  {
    MarkerOf(lines[k]).Some? && Closes(MarkerOf(lines[k]).value, MarkerOf(lines[o]).value)
  }

  lemma OpensNext(lines: seq<string>, o: nat, i: nat)
    requires o < i < |lines|
    ensures OpensFor(lines, o, i + 1) <==> OpensFor(lines, o, i) && !ClosesAt(lines, o, i)
  {
    hide FenceBefore, MarkerOf, Closes;
  }

  lemma {:induction false} OpenerGivesFence(lines: seq<string>, o: nat, i: nat)
    requires OpensFor(lines, o, i)
    ensures FenceBefore(lines, i) == MarkerOf(lines[o])
    decreases i
  {
    hide MarkerOf, Closes;
    if o >= i - 1 {
    } else {
      OpensNext(lines, o, i - 1);
      OpenerGivesFence(lines, o, i - 1);
    }
  }

  lemma {:induction false} FenceHasOpener(lines: seq<string>, i: nat)
    requires i <= |lines| && FenceBefore(lines, i).Some?
    ensures exists o: nat :: OpensFor(lines, o, i)
  {
    hide MarkerOf, Closes;
    if FenceBefore(lines, i - 1).None? {
      assert OpensFor(lines, i - 1, i);
    } else {
      FenceHasOpener(lines, i - 1);
      var o: nat :| OpensFor(lines, o, i - 1);
      OpenerGivesFence(lines, o, i - 1);
      OpensNext(lines, o, i - 1);
    }
  }

  /** A line is read exactly when it is no fence line itself and every fence opened before it
      was closed before it. */
  lemma KeptExactly(lines: seq<string>, i: nat)
    requires i < |lines|
    ensures IsKept(lines, i) <==> MarkerOf(lines[i]).None? && forall o: nat :: !OpensFor(lines, o, i)
  {
    hide MarkerOf, FenceBefore, OpensFor;
    if FenceBefore(lines, i).Some? {
      FenceHasOpener(lines, i);
    } else {
      forall o: nat | OpensFor(lines, o, i)
        ensures false
      {
        OpenerGivesFence(lines, o, i);
        OpensMarked(lines, o, i);
      }
    }
  }

  lemma OpensMarked(lines: seq<string>, o: nat, i: nat)
    requires OpensFor(lines, o, i)
    ensures MarkerOf(lines[o]).Some?
  {
  }

  /** What stands inside a fence never matters: another text in its place, so long as it is no
      fence line, leaves the lines read as they are. */
  lemma {:induction false} FencedIsInert(lines: seq<string>, i: nat, other: string, n: nat)
    requires i < |lines| && n <= |lines|
    requires FenceBefore(lines, i).Some? && MarkerOf(lines[i]).None? && MarkerOf(other).None?
    ensures FenceBefore(lines[i := other], n) == FenceBefore(lines, n)
    ensures Kept(lines[i := other], n) == Kept(lines, n)
    decreases n
  {
    hide MarkerOf;
    if n == 0 {
    } else {
      FencedIsInert(lines, i, other, n - 1);
    }
  }

  // ---------- the section ----------

  function Lower(c: char): char {
    if 'A' <= c <= 'Z' then (c as int + 32) as char else c
  }

  /** Whether a text is a lower-case ASCII phrase but for the case of its letters. */
  predicate Says(text: string, phrase: string) {
    |text| == |phrase| && forall i :: 0 <= i < |text| ==> Lower(text[i]) == phrase[i]
  }

  predicate IsLevelTwo(line: string) {
    |line| > 2 && line[0] == '#' && line[1] == '#' && IsSpace(line[2])
  }

  predicate IsSectionHeading(line: string) {
    IsLevelTwo(Trim(line)) && Says(TrimStart(Trim(line)[2..]), "architecture obligation coverage")
  }

  /** The lines between the section's heading and the next heading of level two. */
  function SectionOf(lines: seq<string>): seq<string> {
    var heading := FirstWhere(lines, 0, IsSectionHeading);
    if heading == |lines| then [] else lines[heading + 1..FirstWhere(lines, heading + 1, IsLevelTwo)]
  }

  // ---------- rows ----------

  function TrimAll(parts: seq<string>): (r: seq<string>)
    ensures |r| == |parts| && forall i :: 0 <= i < |r| ==> r[i] == Trim(parts[i])
  {
    seq(|parts|, i requires 0 <= i < |parts| => Trim(parts[i]))
  }

  /** The cells of a table row. */
  function RowOf(line: string): Option<seq<string>> {
    var t := Trim(line);
    if t == "" || t[0] != '|' then None
    else
      var rest := t[1..];
      var inner := if rest != "" && rest[|rest| - 1] == '|' then rest[..|rest| - 1] else rest;
      Some(TrimAll(Split(inner, '|')))
  }

  function RowsOf(lines: seq<string>): seq<seq<string>> {
    if lines == [] then []
    else
      var n := |lines| - 1;
      RowsOf(lines[..n]) + (if RowOf(lines[n]).Some? then [RowOf(lines[n]).value] else [])
  }

  /** The coverage table of a plan. */
  function TableOf(planText: string): seq<seq<string>> {
    RowsOf(SectionOf(Kept(SplitLines(planText), |SplitLines(planText)|)))
  }

  method SectionLines(planText: string) returns (section: seq<string>)
    ensures section == SectionOf(Kept(SplitLines(planText), |SplitLines(planText)|))
  {
    hide Kept, SplitLines, IsSectionHeading, IsLevelTwo;
    var lines := LinesOutsideFences(planText);
    var heading := FirstWhere(lines, 0, IsSectionHeading);
    if heading == |lines| {
      return [];
    }
    section := [];
    var i := heading + 1;
    while i < |lines|
      invariant heading + 1 <= i <= |lines|
      invariant section == lines[heading + 1..i]
      invariant forall k :: heading + 1 <= k < i ==> !IsLevelTwo(lines[k])
    {
      if IsLevelTwo(lines[i]) {
        break;
      }
      section := section + [lines[i]];
      i := i + 1;
    }
  }

  // ---------- writing a row ----------

  function Inner(cells: seq<string>): string
    requires cells != []
  {
    " " + cells[0] + " " + (if |cells| == 1 then "" else "|" + Inner(cells[1..]))
  }

  /** A row as a table writes it. */
  function PrintRow(cells: seq<string>): string
    requires cells != []
  {
    "|" + Inner(cells) + "|"
  }

  predicate IsCell(c: string) {
    '|' !in c && Trim(c) == c
  }

  lemma {:induction false} SplitFirst(a: string, b: string)
    requires '|' !in a
    ensures Split(a, '|') == [a]
    ensures Split(a + ("|" + b), '|') == [a] + Split(b, '|')
  {
    var s := a + ("|" + b);
    if a == "" {
      assert s[1..] == b;
    } else {
      SplitFirst(a[1..], b);
      assert s[1..] == a[1..] + ("|" + b);
      assert a == [a[0]] + a[1..];
    }
  }

  lemma SpaceAtEnds(s: string)
    ensures TrimStart(" " + s) == TrimStart(s) && TrimEnd(s + " ") == TrimEnd(s)
  {
    assert (" " + s)[1..] == s && (s + " ")[..|s|] == s;
  }

  lemma PaddedCell(c: string)
    requires IsCell(c)
    ensures Trim(" " + c + " ") == c && '|' !in " " + c + " "
  {
    hide TrimStart, TrimEnd, IsSpace;
    assert " " + c + " " == " " + (c + " ");
    SpaceAtEnds(c + " ");
    SpaceAtEnds(c);
    Trimmed(c);
  }

  lemma Trimmed(c: string)
    requires Trim(c) == c
    ensures TrimEnd(TrimStart(c + " ")) == TrimEnd(c + " ") == c
  {
    SpaceAtEnds("");
    SpaceAtEnds(c);
    if c == "" {
      assert c + " " == " " + c == " ";
    } else {
      FirstAndLast(c);
    }
  }

  lemma FirstAndLast(c: string)
    requires c != "" && Trim(c) == c
    ensures !IsSpace(c[0]) && !IsSpace(c[|c| - 1])
  {
    var t := TrimStart(c);
    assert |TrimEnd(t)| <= |t| <= |c|;
    assert t == c;
  }

  lemma {:induction false} InnerCells(cells: seq<string>)
    requires cells != [] && forall i :: 0 <= i < |cells| ==> IsCell(cells[i])
    ensures TrimAll(Split(Inner(cells), '|')) == cells
  {
    hide Split, Trim, IsCell;
    var first := " " + cells[0] + " ";
    PaddedCell(cells[0]);
    if |cells| == 1 {
      SplitFirst(first, "");
      assert Inner(cells) == first;
    } else {
      var rest := cells[1..];
      InnerCells(rest);
      SplitFirst(first, Inner(rest));
      assert Inner(cells) == first + ("|" + Inner(rest));
      assert TrimAll([first] + Split(Inner(rest), '|')) == [cells[0]] + rest;
    }
  }

  lemma {:induction false} SplitPieces(s: string)
    ensures forall i :: 0 <= i < |Split(s, '|')| ==> '|' !in Split(s, '|')[i]
  {
    if s == "" {
    } else {
      SplitPieces(s[1..]);
    }
  }

  lemma TrimTwice(s: string)
    ensures Trim(Trim(s)) == Trim(s)
    ensures '|' !in s ==> '|' !in Trim(s)
  {
    if Blank(s) {
      assert TrimStart(s) == "";
    } else {
      TrimKeepsText(s);
    }
  }

  lemma RowOfPrinted(cells: seq<string>)
    requires cells != []
    ensures RowOf(PrintRow(cells)) == Some(TrimAll(Split(Inner(cells), '|')))
  {
    hide Split, Inner, TrimAll;
    var line, inner := PrintRow(cells), Inner(cells);
    assert line[0] == '|' && line[|line| - 1] == '|';
    assert TrimStart(line) == line && TrimEnd(line) == line;
    var rest := line[1..];
    assert rest == inner + "|" && rest[..|rest| - 1] == inner;
  }

  lemma PiecesAreCells(s: string)
    ensures forall i :: 0 <= i < |TrimAll(Split(s, '|'))| ==> IsCell(TrimAll(Split(s, '|'))[i])
  {
    hide Split, Trim;
    var parts := Split(s, '|');
    SplitPieces(s);
    forall i | 0 <= i < |parts|
      ensures IsCell(TrimAll(parts)[i])
    {
      TrimTwice(parts[i]);
    }
  }

  /** Reading a written row gives back its cells exactly when no cell holds a bar or has
      whitespace at its ends. */
  lemma RowRoundTrip(cells: seq<string>)
    requires cells != []
    ensures RowOf(PrintRow(cells)) == Some(cells) <==> forall i :: 0 <= i < |cells| ==> IsCell(cells[i])
  {
    hide Split, Inner, IsCell, TrimAll, RowOf, PrintRow;
    RowOfPrinted(cells);
    PiecesAreCells(Inner(cells));
    if forall i :: 0 <= i < |cells| ==> IsCell(cells[i]) {
      InnerCells(cells);
    }
  }
}
