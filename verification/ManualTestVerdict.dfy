/** When the manual-test gate is done, told from the text of the results file and the fields of
    the marker. */
module ManualTestVerdict {
  import opened Json
  import opened ManualTestGate

  // ---------- texts cut at a separator ----------

  function Joined(parts: seq<string>, separator: char): string
    requires parts != []
  {
    if |parts| == 1 then parts[0] else parts[0] + [separator] + Joined(parts[1..], separator)
  }

  /** The parts hold no separator, and with it between them they are the text. */
  lemma {:induction false} SplitExactly(text: string, separator: char)
    ensures var parts := Split(text, separator);
            && Joined(parts, separator) == text
            && forall k :: 0 <= k < |parts| ==> separator !in parts[k]
  {
    if text == "" {
    } else {
      var rest := Split(text[1..], separator);
      SplitExactly(text[1..], separator);
      assert text == [text[0]] + text[1..];
      var parts := Split(text, separator);
      if text[0] == separator {
        assert parts[1..] == rest;
        assert Joined(parts, separator) == "" + [separator] + text[1..];
      } else {
        assert parts[1..] == rest[1..];
        if |rest| > 1 {
          assert Joined(parts, separator) == ([text[0]] + rest[0]) + [separator] + Joined(rest[1..], separator);
        }
      }
    }
  }

  // ---------- the latest attempt ----------

  predicate AllSpaces(text: string, from: nat, end: nat)
    requires from <= end <= |text|
  {
    forall k :: from <= k < end ==> IsSpace(text[k])
  }

  predicate IsAsciiWord(c: char) {
    'a' <= c <= 'z' || 'A' <= c <= 'Z' || '0' <= c <= '9' || c == '_'
  }

  predicate IsAttemptWord(w: string) {
    |w| == 7 && forall k :: 0 <= k < 7 ==> w[k] == "attempt"[k] || w[k] == "ATTEMPT"[k]
  }

  /** At the start of a line: two hashes, spaces, the word, spaces, a whole number and the end
      of a word. */
  predicate HeadingWith(text: string, i: nat, word: nat, gap: nat, end: nat) {
    && i + 2 < word && word + 7 < gap < end <= |text|
    && (i == 0 || text[i - 1] in "\n\r\U{2028}\U{2029}")
    && text[i] == text[i + 1] == '#'
    && AllSpaces(text, i + 2, word)
    && IsAttemptWord(text[word..word + 7])
    && AllSpaces(text, word + 7, gap)
    && (forall k :: gap <= k < end ==> '0' <= text[k] <= '9')
    && (end < |text| ==> !IsAsciiWord(text[end]))
  }

  ghost predicate Heading(text: string, i: nat) {
    exists word: nat, gap: nat, end: nat :: HeadingWith(text, i, word, gap, end)
  }

  lemma WordExactly(text: string, from: nat)
    ensures MatchesIgnoringCase(text, from, "attempt") <==> from + 7 <= |text| && IsAttemptWord(text[from..from + 7])
  {
    if from + 7 <= |text| {
      var w := text[from..from + 7];
      assert forall k :: 0 <= k < 7 ==> w[k] == text[from + k] && "ATTEMPT"[k] == ("attempt"[k] as int - 32) as char;
    }
  }

  lemma RunIs(text: string, from: nat, end: nat, class_: char -> bool)
    requires from <= end <= |text| && (forall k :: from <= k < end ==> class_(text[k])) && (end < |text| ==> !class_(text[end]))
    ensures RunEnd(text, from, class_) == end
  {
  }

  lemma HeadingExactly(text: string, i: nat)
    requires i <= |text|
    ensures AttemptHeadingAt(text, i) <==> Heading(text, i)
  {
    hide IsSpace, RunEnd, MatchesIgnoringCase, IsAttemptWord;
    if AttemptHeadingAt(text, i) {
      var word := RunEnd(text, i + 2, IsSpace);
      WordExactly(text, word);
      var gap := RunEnd(text, word + 7, IsSpace);
      var end := RunEnd(text, gap, IsDigit);
      assert HeadingWith(text, i, word, gap, end);
    }
    if word: nat, gap: nat, end: nat :| HeadingWith(text, i, word, gap, end) {
      WordExactly(text, word);
      WordIsNoSpace(text, word);
      RunIs(text, i + 2, word, IsSpace);
      DigitIsNoSpace(text[gap]);
      RunIs(text, word + 7, gap, IsSpace);
      RunIs(text, gap, end, IsDigit);
    }
  }

  lemma WordIsNoSpace(text: string, word: nat)
    requires word + 7 <= |text| && IsAttemptWord(text[word..word + 7])
    ensures !IsSpace(text[word])
  {
    assert text[word..word + 7][0] == text[word];
  }

  lemma DigitIsNoSpace(c: char)
    ensures '0' <= c <= '9' ==> !IsSpace(c)
  {
  }

  /** The region that carries the verdict, exactly: the suffix that starts at the last heading,
      and the text itself when there is none. */
  lemma RegionExactly(text: string)
    ensures forall i: nat :: i <= |text| && Heading(text, i) && (forall k: nat :: i < k <= |text| ==> !Heading(text, k)) ==>
                               LatestAttemptRegion(text) == text[i..]
    ensures (forall k: nat :: k <= |text| ==> !Heading(text, k)) ==> LatestAttemptRegion(text) == text
    ensures (exists i: nat :: i <= |text| && Heading(text, i) && (forall k: nat :: i < k <= |text| ==> !Heading(text, k)))
            || (forall k: nat :: k <= |text| ==> !Heading(text, k))
  {
    hide AttemptHeadingAt, Heading;
    forall k: nat | k <= |text|
      ensures AttemptHeadingAt(text, k) <==> Heading(text, k)
    {
      HeadingExactly(text, k);
    }
    var i := LastHeading(text, |text| + 1);
    if i >= 0 {
      assert Heading(text, i);
    }
  }

  // ---------- its FAIL rows ----------

  /** Spaces apart, the word FAIL in any mixture of cases; the dotless i uppercases to I. */
  predicate SaysFail(cell: string) {
    var t := Trim(cell);
    |t| == 4 && t[0] in "Ff" && t[1] in "Aa" && t[2] in "Ii\U{0131}" && t[3] in "Ll"
  }

  predicate HasFailCell(line: string) {
    exists k :: 0 <= k < |Split(line, '|')| && SaysFail(Split(line, '|')[k])
  }

  lemma FailCellExactly(line: string)
    ensures IsFailRow(line) <==> HasFailCell(line)
  {
    forall cell
      ensures IsFailCell(cell) <==> SaysFail(cell)
    {
      CellExactly(cell);
    }
  }

  lemma CellExactly(cell: string)
    ensures IsFailCell(cell) <==> SaysFail(cell)
  {
  }

  lemma {:induction false} FailsExactly(lines: seq<string>) returns (at: seq<nat>)
    ensures PicksAt(lines, FilterFails(lines), HasFailCell, at)
  {
    hide HasFailCell, IsFailRow, PicksAt;
    if lines == [] {
      at := [];
      NothingPicked();
    } else {
      var n := |lines| - 1;
      var before := FailsExactly(lines[..n]);
      FailCellExactly(lines[n]);
      assert lines == lines[..n] + [lines[n]];
      at := if IsFailRow(lines[n]) then before + [n] else before;
      PickOneMore(lines[..n], FilterFails(lines[..n]), HasFailCell, before, lines[n]);
      assert FilterFails(lines[..n]) + [] == FilterFails(lines[..n]);
    }
  }

  lemma NothingPicked()
    ensures PicksAt([], [], HasFailCell, [])
  {
  }

  /** The rows an evaluation reads are, in order, the lines behind the last heading that have a
      FAIL cell. */
  lemma FailRowsExactly(text: string) returns (at: seq<nat>)
    ensures PicksAt(Split(LatestAttemptRegion(text), '\n'), FailRows(LatestAttemptRegion(text)), HasFailCell, at)
  {
    hide PicksAt, LatestAttemptRegion;
    at := FailsExactly(Split(LatestAttemptRegion(text), '\n'));
  }

  /** Some line behind the last heading has a FAIL cell. */
  ghost predicate LatestFails(text: string) {
    exists start: nat ::
      && IsLastStart(text, start)
      && exists k :: 0 <= k < |Split(text[start..], '\n')| && HasFailCell(Split(text[start..], '\n')[k])
  }

  ghost predicate LatestSkips(text: string) {
    exists start: nat ::
      && IsLastStart(text, start)
      && exists k :: 0 <= k < |Split(text[start..], '\n')| && MarksSkip(Split(text[start..], '\n')[k])
  }

  /** The line that says that the attempt was skipped, spaces around it apart. */
  predicate MarksSkip(line: string) {
    Trim(line) == "<!-- manual-test:skipped -->"
  }

  /** The last heading, or the start of a text without headings. */
  ghost predicate IsLastStart(text: string, start: nat) {
    && start <= |text|
    && (Heading(text, start) || (start == 0 && forall k: nat :: k <= |text| ==> !Heading(text, k)))
    && (forall k: nat :: start < k <= |text| ==> !Heading(text, k))
  }

  lemma LastStart(text: string) returns (start: nat)
    ensures start <= |text| && IsLastStart(text, start) && LatestAttemptRegion(text) == text[start..]
    ensures forall other: nat :: IsLastStart(text, other) ==> other == start
  {
    hide Heading, LatestAttemptRegion;
    RegionExactly(text);
    if i: nat :| i <= |text| && Heading(text, i) && (forall k: nat :: i < k <= |text| ==> !Heading(text, k)) {
      start := i;
    } else {
      start := 0;
      assert text[0..] == text;
    }
  }

  lemma LatestExactly(text: string)
    ensures LatestFails(text) <==> FailRows(LatestAttemptRegion(text)) != []
    ensures LatestSkips(text) <==> IsSkipAttempt(LatestAttemptRegion(text))
  {
    hide Heading, LatestAttemptRegion, HasFailCell, FailRows, IsLastStart, MarksSkip;
    var start := LastStart(text);
    var lines := Split(text[start..], '\n');
    var at := FailRowsExactly(text);
    var rows := FailRows(LatestAttemptRegion(text));
    if rows != [] {
      assert HasFailCell(lines[at[0]]);
    }
    if LatestFails(text) {
      var k :| 0 <= k < |lines| && HasFailCell(lines[k]);
      assert k in at;
    }
    SkipExactly(text[start..]);
  }

  lemma SkipExactly(region: string)
    ensures IsSkipAttempt(region) <==> exists k :: 0 <= k < |Split(region, '\n')| && MarksSkip(Split(region, '\n')[k])
  {
    hide MarksSkip, IsSkipLine;
    forall line
      ensures IsSkipLine(line) <==> MarksSkip(line)
    {
      SkipLineExactly(line);
    }
    var lines := Split(region, '\n');
    if IsSkipAttempt(region) {
      var line :| line in lines && IsSkipLine(line);
      var k :| 0 <= k < |lines| && lines[k] == line;
      assert MarksSkip(lines[k]);
      assert exists k :: 0 <= k < |Split(region, '\n')| && MarksSkip(Split(region, '\n')[k]);
    } else {
      forall k | 0 <= k < |lines|
        ensures !MarksSkip(lines[k])
      {
        assert lines[k] in lines;
      }
    }
  }

  lemma SkipLineExactly(line: string)
    ensures IsSkipLine(line) <==> MarksSkip(line)
  {
  }

  // ---------- when an evaluation is done ----------

  predicate IsObject(m: Marker) {
    m.Text? && m.parsed.Some? && m.parsed.value.Obj?
  }

  /** The marker names the head at which a FAIL was seen. */
  predicate NamesHead(m: Marker, head: string) {
    IsObject(m) && FHeadSha in m.parsed.value.fields && m.parsed.value.fields[FHeadSha] == Str(head)
  }

  /** The marker was written in the session, or there is no session to be written in. */
  predicate OfSession(m: Marker, session: Option<real>) {
    || session.None?
    || (&& IsObject(m) && FObservedAt in m.parsed.value.fields
        && m.parsed.value.fields[FObservedAt].Num? && m.parsed.value.fields[FObservedAt].n >= session.value)
  }

  /** An object with a code stamp, without a head and without rows. */
  predicate OnlyStamped(m: Marker) {
    && IsObject(m)
    && var fields := m.parsed.value.fields;
       && FCodeStamp in fields && fields[FCodeStamp] != Null
       && FHeadSha !in fields
       && (|| FFailRows !in fields
           || fields[FFailRows] == Arr([])
           || fields[FFailRows] == Str("")
           || (fields[FFailRows].Obj? && FLength in fields[FFailRows].fields && fields[FFailRows].fields[FLength] == Num(0.0)))
  }

  /** The short cut: the code has not changed since a clean verdict was stamped. */
  predicate TakesShortCut(m: Marker, c: Context) {
    c.identity != Stale && c.validityEnabled && c.verdictReads && c.preserves && OnlyStamped(m)
  }

  /** The look-up for a skip finds a FAIL of this session at the current head. */
  predicate SkipIsBlocked(m: Marker, c: Context) {
    c.head.Some? && c.head.value != "" && c.evidenceReads && NamesHead(m, c.head.value) && OfSession(m, c.session)
  }

  /** The closing guard finds a FAIL at the current head, of this session or under a probe. */
  predicate EndIsBlocked(m: Marker, c: Context) {
    && c.head.Some? && c.head.value != "" && c.guardReads && NamesHead(m, c.head.value)
    && (OfSession(m, c.session) || c.preserveProbe)
  }

  /** The results read clean: they are of this run or this session, nothing behind the last
      heading fails, and no recorded FAIL stands against them. */
  ghost predicate IsClean(m: Marker, c: Context) {
    && c.identity != Stale && c.results.Some? && !LatestFails(c.results.value)
    && var skip := LatestSkips(c.results.value);
       && (skip ==> c.identity == Match || c.freshAtSkip)
       && ((skip && !SkipIsBlocked(m, c)) || ((c.identity == Match || c.freshAtEnd) && !EndIsBlocked(m, c)))
  }

  /** For every marker and every course of an evaluation: it is done exactly when it takes the
      short cut or the results read clean, and it has FAIL rows exactly when it does not take
      the short cut, the results are of this run or unstamped, and a line behind their last
      heading has a FAIL cell. */
  lemma DoneExactly(m: Marker, c: Context)
    ensures Evaluation(m, c).0.IsDone() <==> TakesShortCut(m, c) || IsClean(m, c)
    ensures Evaluation(m, c).0 == HasFails <==>
              !TakesShortCut(m, c) && c.identity != Stale && c.results.Some? && LatestFails(c.results.value)
  {
    hide LatestAttemptRegion, FailRows, IsSkipAttempt, LatestFails, LatestSkips, IsCleanPass, OnlyStamped, Recorded, Stamped;
    StampExactly(m);
    if c.results.Some? {
      LatestExactly(c.results.value);
    }
    FieldsExactly(m, c.session);
    FieldsExactly(NoMarker, c.session);
    assert !IsCleanPass(NoMarker) by {
      StampExactly(NoMarker);
    }
  }

  lemma StampExactly(m: Marker)
    ensures IsCleanPass(m) <==> OnlyStamped(m)
    ensures !OnlyStamped(NoMarker)
  {
  }

  lemma FieldsExactly(m: Marker, session: Option<real>)
    ensures forall head :: FieldOf(m, FHeadSha) == Some(Str(head)) <==> NamesHead(m, head)
    ensures IsFresh(m, session) <==> OfSession(m, session)
  {
  }

  /** A FAIL behind the last heading is never done but by the short cut. */
  lemma FailIsNotDone(m: Marker, c: Context)
    requires c.results.Some? && LatestFails(c.results.value)
    ensures Evaluation(m, c).0.IsDone() <==> TakesShortCut(m, c)
  {
    hide Evaluation, LatestFails, LatestSkips;
    DoneExactly(m, c);
  }

  /** What a FAIL leaves in the marker: outside a probe, with a known head and a write that
      succeeds, the time, the head and the first twenty of its rows; otherwise what was
      there. */
  lemma FailIsWritten(m: Marker, c: Context)
    requires Evaluation(m, c).0 == HasFails
    ensures var after := Evaluation(m, c).1;
            if c.head.Some? && c.head.value != "" && !c.preserveProbe && c.writeSucceeds then
              && IsObject(after) && after.parsed.value.fields.Keys == {FObservedAt, FHeadSha, FFailRows}
              && after.parsed.value.fields[FObservedAt] == Num(c.now)
              && after.parsed.value.fields[FHeadSha] == Str(c.head.value)
              && HoldsRows(after.parsed.value.fields[FFailRows], FailRows(LatestAttemptRegion(c.results.value)))
            else after == m
  {
    hide LatestAttemptRegion, FailRows, IsSkipAttempt, IsCleanPass;
  }

  predicate HoldsRows(v: Json<Field>, rows: seq<string>) {
    && v.Arr?
    && |v.items| <= |rows| && |v.items| <= 20 && (|v.items| == |rows| || |v.items| == 20)
    && forall k :: 0 <= k < |v.items| ==> v.items[k] == Str(rows[k])
  }

  /** The marker names some head. */
  predicate NamesAHead(m: Marker) {
    IsObject(m) && FHeadSha in m.parsed.value.fields && m.parsed.value.fields[FHeadSha].Str?
  }

  /** What every other evaluation leaves in the marker.  Only one that is done through its results
      touches it, outside a probe and at a known head, and not for a skip that no FAIL blocks: a
      marker that is seen to name a head is removed, and then the head is stamped on what a read
      finds, other fields being kept. */
  lemma MarkerExactly(m: Marker, c: Context)
    requires Evaluation(m, c).0 != HasFails
    ensures var (v, after) := Evaluation(m, c);
            if v != Done || (LatestSkips(c.results.value) && !SkipIsBlocked(m, c)) || !c.HeadKnown() || c.preserveProbe then after == m
            else
              var kept := if c.guardReads && NamesAHead(m) && c.removeSucceeds then NoMarker else m;
              if !c.writeSucceeds then after == kept
              else
                && IsObject(after)
                && after.parsed.value.fields ==
                   (if c.stampReads && IsObject(kept) then kept.parsed.value.fields else map[])[FCodeStamp := Str(c.head.value)]
  {
    hide LatestAttemptRegion, FailRows, IsSkipAttempt, LatestFails, LatestSkips, IsCleanPass, Recorded;
    if c.results.Some? {
      LatestExactly(c.results.value);
    }
    FieldsExactly(m, c.session);
    FieldsExactly(NoMarker, c.session);
  }
}
