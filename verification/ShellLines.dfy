/** Physical lines joined into logical command lines, and the physical line that every
    word and heredoc of a command line is reported at. */
module ShellLines {
  import opened Json
  import opened ShellText
  import opened ShellWords
  import opened ShellCommands
  import opened ShellPlaces

  // ---------- line numbers ----------

  /** How many of the recorded starts lie at or before `offset`. */
  function CountUpTo(starts: seq<nat>, offset: nat): nat {
    if starts == [] then 0
    else CountUpTo(starts[..|starts| - 1], offset) + (if starts[|starts| - 1] <= offset then 1 else 0)
  }

  /** The line number, counted from one, that the checker reports for an offset. */
  function LineAt(start: nat, starts: seq<nat>): nat -> nat {
    (offset: nat) => start + CountUpTo(starts, offset)
  }

  predicate Sorted(starts: seq<nat>) {
    forall i, j :: 0 <= i < j < |starts| ==> starts[i] <= starts[j]
  }

  lemma {:induction false} CountSorted(starts: seq<nat>, offset: nat)
    requires Sorted(starts)
    ensures CountUpTo(starts, offset) <= |starts|
    ensures forall i :: 0 <= i < |starts| ==> (i < CountUpTo(starts, offset) <==> starts[i] <= offset)
  {
    if starts == [] {
    } else {
      CountSorted(starts[..|starts| - 1], offset);
    }
  }

  /** The starts recorded for a joined text are where its pieces begin. */
  predicate Recorded(pieces: seq<string>, starts: seq<nat>) {
    && pieces != [] && |starts| == |pieces|
    && forall i :: 0 <= i < |starts| ==> starts[i] == BeginOf(pieces, i)
  }

  lemma RecordedSorted(pieces: seq<string>, starts: seq<nat>)
    requires Recorded(pieces, starts)
    ensures Sorted(starts)
  {
    forall i, j | 0 <= i < j < |starts|
      ensures starts[i] <= starts[j]
    {
      BeginsSorted(pieces, i, j);
    }
  }

  /** Piece `k` holds the character at `offset` of the joined text. */
  predicate Holds(pieces: seq<string>, offset: nat, k: nat) {
    && k < |pieces|
    && BeginOf(pieces, k) <= offset < BeginOf(pieces, k) + |pieces[k]|
    && offset < |Concat(pieces)|
    && Concat(pieces)[offset] == pieces[k][offset - BeginOf(pieces, k)]
  }

  /** Counting the starts up to an offset finds the one piece that holds its character,
      however many pieces are empty. */
  lemma CountExact(pieces: seq<string>, starts: seq<nat>, offset: nat, k: nat)
    requires Recorded(pieces, starts) && offset < |Concat(pieces)|
    ensures Holds(pieces, offset, k) <==> k + 1 == CountUpTo(starts, offset)
  {
    hide Concat, CountUpTo, BeginOf;
    RecordedSorted(pieces, starts);
    CountSorted(starts, offset);
    BeginAndEnd(pieces);
    var n := CountUpTo(starts, offset);
    BeginNext(pieces, n - 1);
    assert starts[n - 1] == BeginOf(pieces, n - 1);
    PieceAt(pieces, n - 1, offset - BeginOf(pieces, n - 1));
    if k < |pieces| {
      BeginNext(pieces, k);
      assert starts[k] == BeginOf(pieces, k);
      if k + 1 < |pieces| {
        assert starts[k + 1] == BeginOf(pieces, k + 1);
      }
    }
  }

  // ---------- joining ----------

  /** The physical lines `start` to `last` each but the last continue on the next. */
  predicate Joins(lines: seq<string>, start: nat, last: nat) {
    start <= last < |lines| && forall j :: start <= j < last ==> Continues(lines[j])
  }

  /** What the physical lines contribute: each but the last gives up its closing
      backslash. */
  function Pieces(lines: seq<string>, start: nat, last: nat): (pieces: seq<string>)
    requires Joins(lines, start, last)
    ensures |pieces| == last - start + 1
  {
    seq(last - start, i requires 0 <= i < last - start => lines[start + i][..|lines[start + i]| - 1]) + [lines[last]]
  }

  lemma {:induction false} ConcatShorter(pieces: seq<string>, line: string)
    requires pieces != [] && pieces[|pieces| - 1] != ""
    ensures var n, last := |pieces| - 1, pieces[|pieces| - 1];
            var grown := pieces[..n] + [last[..|last| - 1], line];
            && |Concat(pieces)| > 0
            && Concat(grown) == Concat(pieces)[..|Concat(pieces)| - 1] + line
            && BeginOf(grown, n + 1) == |Concat(pieces)| - 1
            && forall k :: 0 <= k <= n ==> BeginOf(grown, k) == BeginOf(pieces, k)
  {
    var n, last := |pieces| - 1, pieces[|pieces| - 1];
    var cut := last[..|last| - 1];
    var grown := pieces[..n] + [cut, line];
    assert grown[..n + 1] == pieces[..n] + [cut];
    assert (pieces[..n] + [cut])[..n] == pieces[..n];
    forall k | 0 <= k <= n
      ensures BeginOf(grown, k) == BeginOf(pieces, k)
    {
      assert grown[..k] == pieces[..k];
    }
  }

  lemma PiecesGrow(lines: seq<string>, start: nat, last: nat)
    requires Joins(lines, start, last) && last + 1 < |lines| && Continues(lines[last])
    ensures Joins(lines, start, last + 1)
    ensures var pieces, n := Pieces(lines, start, last), last - start;
            && pieces[n] == lines[last] != ""
            && Pieces(lines, start, last + 1) == pieces[..n] + [lines[last][..|lines[last]| - 1], lines[last + 1]]
  {
    hide Continues;
  }

  /** Joins a physical line with the lines it continues on, recording where each begins. */
  method JoinedContinuation(lines: seq<string>, start: nat) returns (text: string, consumed: nat, starts: seq<nat>)
    requires start < |lines|
    ensures consumed > 0 && Joins(lines, start, start + consumed - 1)
    ensures start + consumed == |lines| || !Continues(lines[start + consumed - 1])
    ensures text == Concat(Pieces(lines, start, start + consumed - 1))
    ensures Recorded(Pieces(lines, start, start + consumed - 1), starts)
  {
    hide Continues, Concat, Pieces;
    JoinOne(lines, start);
    text := lines[start];
    starts := [0];
    consumed := 1;
    while start + consumed < |lines|
      invariant consumed > 0 && Joins(lines, start, start + consumed - 1)
      invariant text == Concat(Pieces(lines, start, start + consumed - 1))
      invariant Recorded(Pieces(lines, start, start + consumed - 1), starts)
    {
      var continues := ContinuesShellLine(lines[start + consumed - 1]);
      if !continues {
        break;
      }
      PiecesGrow(lines, start, start + consumed - 1);
      ConcatShorter(Pieces(lines, start, start + consumed - 1), lines[start + consumed]);
      text := text[..|text| - 1];
      starts := starts + [|text|];
      text := text + lines[start + consumed];
      consumed := consumed + 1;
    }
  }

  lemma JoinOne(lines: seq<string>, start: nat)
    requires start < |lines|
    ensures Joins(lines, start, start)
    ensures Pieces(lines, start, start) == [lines[start]]
    ensures Concat([lines[start]]) == lines[start] && Recorded([lines[start]], [0])
  {
    hide Continues;
    var one := [lines[start]];
    assert one[..0] == [];
  }

  // ---------- a logical line, scanned ----------

  /** Line `n`, counted from one, is the physical line that holds the character at `offset`
      of the text joined from the lines `start` to `last`. */
  predicate OnLine(lines: seq<string>, start: nat, last: nat, offset: nat, n: nat)
    requires Joins(lines, start, last)
  {
    n > start && Holds(Pieces(lines, start, last), offset, n - 1 - start)
  }

  /** A word is reported at the physical line that holds its first character: the one at
      `offset`, where its raw text stands in the joined text. */
  predicate WordReported(lines: seq<string>, start: nat, last: nat, w: Word, offset: nat)
    requires Joins(lines, start, last)
  {
    OnLine(lines, start, last, offset, w.line) && WordAtLabel(Concat(Pieces(lines, start, last)), w.(line := offset))
  }

  ghost predicate HeredocReported(lines: seq<string>, start: nat, last: nat, h: Heredoc, offset: nat)
    requires Joins(lines, start, last)
  {
    OnLine(lines, start, last, offset, h.line) && HeredocAtLabel(Concat(Pieces(lines, start, last)), h.(line := offset))
  }

  /** Each word and heredoc of `scan` is reported by the label of its counterpart in
      `offsets`. */
  ghost predicate ReportedBy(lines: seq<string>, start: nat, last: nat, scan: CommandScan, offsets: CommandScan)
    requires Joins(lines, start, last)
  {
    && |scan.commands| == |offsets.commands| && |scan.heredocs| == |offsets.heredocs|
    && (forall i :: 0 <= i < |scan.commands| ==> |scan.commands[i]| == |offsets.commands[i]|)
    && (forall i, j :: 0 <= i < |scan.commands| && 0 <= j < |scan.commands[i]| ==>
          WordReported(lines, start, last, scan.commands[i][j], offsets.commands[i][j].line))
    && (forall i :: 0 <= i < |scan.heredocs| ==>
          HeredocReported(lines, start, last, scan.heredocs[i], offsets.heredocs[i].line))
  }

  /** The line reported for an offset is the one physical line that holds its character. */
  lemma LineExact(lines: seq<string>, start: nat, last: nat, starts: seq<nat>, offset: nat, n: nat)
    requires Joins(lines, start, last) && Recorded(Pieces(lines, start, last), starts)
    requires offset < |Concat(Pieces(lines, start, last))|
    ensures OnLine(lines, start, last, offset, n) <==> n == LineAt(start, starts)(offset)
  {
    hide Pieces, Concat, Continues, Holds, Recorded;
    var pieces := Pieces(lines, start, last);
    if n > start {
      CountExact(pieces, starts, offset, n - 1 - start);
    } else {
      CountPositive(pieces, starts, offset);
    }
  }

  lemma CountPositive(pieces: seq<string>, starts: seq<nat>, offset: nat)
    requires Recorded(pieces, starts)
    ensures CountUpTo(starts, offset) > 0
  {
    RecordedSorted(pieces, starts);
    CountSorted(starts, offset);
    assert starts[0] == 0;
  }

  /** However deep inside command substitutions, every word and heredoc of a logical line is
      reported at the physical line that holds the character at its label.  The labels are
      those of the scan: in the order of the text and all different, so that of two equal
      words each is reported at its own line. */
  lemma ScanReported(lines: seq<string>, start: nat, last: nat, starts: seq<nat>)
    requires Joins(lines, start, last) && Recorded(Pieces(lines, start, last), starts)
    ensures var offsets := Scan(Concat(Pieces(lines, start, last)));
            && ReportedBy(lines, start, last, Relabel(LineAt(start, starts), offsets), offsets)
            && Spread(ScanLabelsOf(offsets), 0, |Concat(Pieces(lines, start, last))|)
  {
    hide Continues, Recorded, Scan, OnLine, LineAt, Unquote, Pieces, Concat, Joins, HeredocReported, RunsPython, ScanLabelsOf, Spread;
    var text := Concat(Pieces(lines, start, last));
    var offsets := Scan(text);
    var scan := Relabel(LineAt(start, starts), offsets);
    ScanLabels(text);
    ScanSpread(text);
    forall i, j | 0 <= i < |scan.commands| && 0 <= j < |scan.commands[i]|
      ensures WordReported(lines, start, last, scan.commands[i][j], offsets.commands[i][j].line)
    {
      assert CommandAtLabels(text, offsets.commands[i]);
      var w := offsets.commands[i][j];
      assert WordAtLabel(text, w);
      LineExact(lines, start, last, starts, w.line, scan.commands[i][j].line);
      assert scan.commands[i][j].(line := w.line) == w;
    }
    forall i | 0 <= i < |scan.heredocs|
      ensures HeredocReported(lines, start, last, scan.heredocs[i], offsets.heredocs[i].line)
    {
      assert SettledHeredoc(text, offsets.heredocs[i]);
      SettledReported(lines, start, last, starts, offsets.heredocs[i]);
    }
  }

  lemma SettledReported(lines: seq<string>, start: nat, last: nat, starts: seq<nat>, h: Heredoc)
    requires Joins(lines, start, last) && Recorded(Pieces(lines, start, last), starts)
    requires SettledHeredoc(Concat(Pieces(lines, start, last)), h)
    ensures HeredocReported(lines, start, last, RelabelHeredoc(LineAt(start, starts), h), h.line)
  {
    hide Continues, Recorded, OnLine, LineAt, Unquote, Pieces, Concat, Joins, RunsPython, RelabelCommand, CommandAtLabels;
    var text, moved := Concat(Pieces(lines, start, last)), RelabelHeredoc(LineAt(start, starts), h);
    var n: nat :| DelimitedBy(text, h, n);
    LineExact(lines, start, last, starts, h.line, moved.line);
    assert DelimitedBy(text, moved.(line := h.line), n);
  }

  /** Joins a logical line and scans it. */
  method ScanLogicalLine(lines: seq<string>, start: nat) returns (scan: CommandScan, consumed: nat)
    requires start < |lines|
    ensures consumed > 0 && Joins(lines, start, start + consumed - 1)
    ensures start + consumed == |lines| || !Continues(lines[start + consumed - 1])
    ensures exists starts :: Recorded(Pieces(lines, start, start + consumed - 1), starts) &&
              scan == Relabel(LineAt(start, starts), Scan(Concat(Pieces(lines, start, start + consumed - 1))))
    ensures ReportedBy(lines, start, start + consumed - 1, scan, Scan(Concat(Pieces(lines, start, start + consumed - 1))))
  {
    hide Scan, ReportedBy, Pieces, Concat, Continues, Joins, Recorded, LineAt, ScanLabelsOf, Spread;
    var text, joined, starts := JoinedContinuation(lines, start);
    consumed := joined;
    scan := CommandsOnLine(text, LineAt(start, starts));
    ScanReported(lines, start, start + consumed - 1, starts);
  }
}
