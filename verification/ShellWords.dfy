/** One shell word: its quotes, its escapes and the command substitutions inside it. */
module ShellWords {
  import opened Json
  import opened ShellText

  /** The text inside a command substitution, taken verbatim from position `start`. */
  datatype Region = Region(text: string, start: nat)

  /** `line` is whatever the reader was told its first character's position stands for. */
  datatype Word = Word(
    text: string,
    raw: string,
    line: nat,
    expandable: seq<string>,
    openQuote: Quote,
    regions: seq<Region>,
    openRegions: seq<Region>)
  {
    predicate Closed() {
      openQuote == NoQuote
    }
  }

  /** The state of the word reader in front of position `index`. */
  datatype Reader = Reader(
    index: nat,
    quote: Quote,
    depth: nat,
    enclosing: seq<Quote>,
    regionStart: int,
    value: string,
    expandable: string,
    regions: seq<Region>)

  predicate IsOperator(c: char) {
    c in ";|&<>"
  }

  predicate Stops(text: string, r: Reader)
    requires r.index < |text|
  {
    r.quote == NoQuote && r.depth == 0 && (IsSpace(text[r.index]) || IsOperator(text[r.index]))
  }

  function ArithmeticEnd(text: string, index: nat): (end: nat)
    requires StartsWith(text, "$((", index)
    ensures index < end <= |text|
  {
    var close := IndexOf(text, "))", index + 3);
    if close < 0 then |text| else close + 2
  }

  predicate OpensSubstitution(text: string, r: Reader)
    requires r.index < |text|
  {
    r.quote != Single && text[r.index] == '$' && r.index + 1 < |text| && text[r.index + 1] == '('
  }

  predicate ClosesSubstitution(text: string, r: Reader)
    requires r.index < |text|
  {
    r.quote == NoQuote && text[r.index] == ')' && r.depth > 0
  }

  function Open(text: string, r: Reader): Reader {
    r.(enclosing := r.enclosing + [r.quote], quote := NoQuote,
       regionStart := if r.depth == 0 then r.index + 2 else r.regionStart,
       depth := r.depth + 1)
  }

  function Close(text: string, r: Reader): Reader
    requires |r.enclosing| == r.depth > 0 && 0 <= r.regionStart <= r.index <= |text|
  {
    var s := r.(depth := r.depth - 1,
                quote := r.enclosing[r.depth - 1],
                enclosing := r.enclosing[..r.depth - 1]);
    if s.depth == 0 then
      s.(regions := r.regions + [Region(text[r.regionStart..r.index], r.regionStart)], regionStart := -1)
    else s
  }

  /** One round of the word reader. */
  function Advance(text: string, start: nat, r: Reader): (r': Reader)
    requires r.index < |text| && Reading(text, start, r)
    ensures r.index < r'.index <= |text|
  {
    var c := text[r.index];
    if r.quote == NoQuote && IsQuote(c) then r.(quote := QuoteOf(c), index := r.index + 1)
    else if Closes(r.quote, c) then r.(quote := NoQuote, index := r.index + 1)
    else if c == '\\' && r.index + 1 < |text| then r.(value := r.value + [text[r.index + 1]], index := r.index + 2)
    else if r.quote != Single && StartsWith(text, "$((", r.index) then
      var end := ArithmeticEnd(text, r.index);
      r.(value := r.value + text[r.index..end], expandable := r.expandable + text[r.index..end], index := end)
    else
      var s := if OpensSubstitution(text, r) then Open(text, r)
               else if ClosesSubstitution(text, r) then Close(text, r)
               else r;
      s.(value := s.value + [c],
         expandable := if s.quote != Single then s.expandable + [c] else s.expandable,
         index := r.index + 1)
  }

  // ---------- what holds in front of every position ----------

  function RegionEnd(g: Region): nat {
    g.start + |g.text|
  }

  /** A region is the verbatim text between a `$(` at or after `start` and a `)` before
      `end`. */
  predicate RegionIn(text: string, start: nat, end: nat, g: Region)
    requires end <= |text|
  {
    && start + 2 <= g.start && RegionEnd(g) < end
    && text[g.start - 2] == '$' && text[g.start - 1] == '('
    && text[g.start..RegionEnd(g)] == g.text
    && text[RegionEnd(g)] == ')'
  }

  /** Regions are disjoint and in the order of the text; between two of them there is room
      for the `)` of one and the `$(` of the next. */
  predicate Ordered(regions: seq<Region>) {
    forall i, j :: 0 <= i < j < |regions| ==> RegionEnd(regions[i]) + 3 <= regions[j].start
  }

  predicate RegionsIn(text: string, start: nat, end: nat, regions: seq<Region>)
    requires end <= |text|
  {
    Ordered(regions) && forall i :: 0 <= i < |regions| ==> RegionIn(text, start, end, regions[i])
  }

  /** The quotes stacked are as many as the substitutions open, and a region has been begun
      exactly while one is open. */
  predicate Stacked(r: Reader) {
    && |r.enclosing| == r.depth
    && (r.regionStart >= 0 <==> r.depth > 0)
    && -1 <= r.regionStart
    && forall k :: 0 <= k < |r.enclosing| ==> r.enclosing[k] != Single
  }

  /** Where the open region begins: after a `$(` that follows every finished region.  Right
      after its `$` the reader still stands on the parenthesis. */
  predicate RegionOpen(text: string, start: nat, r: Reader)
    requires r.index <= |text|
  {
    && start + 2 <= r.regionStart <= |text|
    && text[r.regionStart - 2] == '$' && text[r.regionStart - 1] == '('
    && (r.regionStart <= r.index || (r.regionStart == r.index + 1 && r.quote == NoQuote))
    && forall i :: 0 <= i < |r.regions| ==> RegionEnd(r.regions[i]) + 3 <= r.regionStart
  }

  predicate Reading(text: string, start: nat, r: Reader) {
    && start <= r.index <= |text|
    && Stacked(r)
    && RegionsIn(text, start, r.index, r.regions)
    && (r.regionStart >= 0 ==> RegionOpen(text, start, r))
  }

  lemma FurtherIn(text: string, start: nat, end: nat, further: nat, regions: seq<Region>)
    requires end <= further <= |text| && RegionsIn(text, start, end, regions)
    ensures RegionsIn(text, start, further, regions)
  {
    assert forall i :: 0 <= i < |regions| ==> RegionIn(text, start, end, regions[i]);
  }

  lemma OpenKeepsReading(text: string, start: nat, r: Reader)
    requires r.index < |text| && Reading(text, start, r) && OpensSubstitution(text, r)
    ensures Reading(text, start, Open(text, r).(index := r.index + 1))
  {
    FurtherIn(text, start, r.index, r.index + 1, r.regions);
    if r.regionStart < 0 {
      forall i | 0 <= i < |r.regions|
        ensures RegionEnd(r.regions[i]) + 3 <= r.index + 2
      {
        assert RegionIn(text, start, r.index, r.regions[i]);
      }
    }
  }

  lemma CloseKeepsReading(text: string, start: nat, r: Reader)
    requires r.index < |text| && Reading(text, start, r) && ClosesSubstitution(text, r)
    ensures 0 <= r.regionStart <= r.index
    ensures Reading(text, start, Close(text, r).(index := r.index + 1))
  {
    FurtherIn(text, start, r.index, r.index + 1, r.regions);
    if r.depth == 1 {
      assert RegionIn(text, start, r.index + 1, Region(text[r.regionStart..r.index], r.regionStart));
    }
  }

  /** The texts a reader collects do not matter to where it stands. */
  lemma ReadingIgnoresTexts(text: string, start: nat, r: Reader, value: string, expandable: string)
    requires Reading(text, start, r)
    ensures Reading(text, start, r.(value := value, expandable := expandable))
  {
  }

  lemma PlainKeepsReading(text: string, start: nat, r: Reader, index: nat, quote: Quote)
    requires r.index < |text| && Reading(text, start, r) && r.index < index <= |text|
    requires r.regionStart == r.index + 1 ==> quote == r.quote
    ensures Reading(text, start, r.(index := index, quote := quote))
  {
    FurtherIn(text, start, r.index, index, r.regions);
  }

  lemma AdvanceKeepsReading(text: string, start: nat, r: Reader)
    requires r.index < |text| && Reading(text, start, r)
    ensures Reading(text, start, Advance(text, start, r))
  {
    hide RegionsIn, RegionOpen, Stacked, StartsWith, IndexOf;
    var next := Advance(text, start, r);
    ParenthesisAhead(text, start, r);
    if OpensSubstitution(text, r) && !StartsWith(text, "$((", r.index) {
      OpenKeepsReading(text, start, r);
      ReadingIgnoresTexts(text, start, Open(text, r).(index := r.index + 1), next.value, next.expandable);
    } else if ClosesSubstitution(text, r) {
      CloseKeepsReading(text, start, r);
      ReadingIgnoresTexts(text, start, Close(text, r).(index := r.index + 1), next.value, next.expandable);
    } else {
      PlainKeepsReading(text, start, r, next.index, next.quote);
      ReadingIgnoresTexts(text, start, r.(index := next.index, quote := next.quote), next.value, next.expandable);
    }
  }

  lemma ParenthesisAhead(text: string, start: nat, r: Reader)
    requires r.index < |text| && Reading(text, start, r)
    ensures r.regionStart == r.index + 1 ==> text[r.index] == '(' && r.quote == NoQuote
    ensures ClosesSubstitution(text, r) ==>
              && |r.enclosing| == r.depth && 0 <= r.regionStart <= r.index
              && !StartsWith(text, "$((", r.index)
  {
    StartsAt(text, "$((", r.index, 0);
  }

  // ---------- whole words ----------

  function Run(text: string, start: nat, r: Reader): (r': Reader)
    requires Reading(text, start, r)
    ensures Reading(text, start, r') && r.index <= r'.index
    ensures r'.index < |text| ==> Stops(text, r')
    decreases |text| - r.index
  {
    if r.index == |text| || Stops(text, r) then r
    else
      AdvanceKeepsReading(text, start, r);
      Run(text, start, Advance(text, start, r))
  }

  function Begin(start: nat): Reader {
    Reader(start, NoQuote, 0, [], -1, "", "", [])
  }

  function Finish(text: string, start: nat, r: Reader, line: nat): Word
    requires Reading(text, start, r)
    requires r.index < |text| ==> Stops(text, r)
  {
    var open := if r.regionStart >= 0 then [Region(text[r.regionStart..], r.regionStart)] else [];
    Word(r.value, text[start..r.index], line, Findings(r.expandable), r.quote, r.regions + open, open)
  }

  /** A substitution's region as the word reports it: verbatim, after a `$(`, and ended by a
      `)` or by the end of the text. */
  predicate RegionOf(text: string, start: nat, end: nat, g: Region)
    requires end <= |text|
  {
    && start + 2 <= g.start && RegionEnd(g) <= end
    && text[g.start - 2] == '$' && text[g.start - 1] == '('
    && text[g.start..RegionEnd(g)] == g.text
    && (RegionEnd(g) == |text| || text[RegionEnd(g)] == ')')
  }

  /** The word that starts at `start`, labelled with that position, and the position after
      it.  Its regions are ordered, disjoint, verbatim slices of its own span, at least two
      characters shorter than it; only the last can be open, and then it reaches the end of
      the text. */
  function ReadWord(text: string, start: nat): (r: (Word, nat))
    requires start <= |text|
    ensures start <= r.1 <= |text|
    ensures r.0.raw == text[start..r.1] && r.0.line == start
    ensures r.1 < |text| ==> IsSpace(text[r.1]) || IsOperator(text[r.1])
    ensures Ordered(r.0.regions)
    ensures forall g :: g in r.0.regions ==> RegionOf(text, start, r.1, g) && |g.text| + 2 <= r.1 - start
    ensures r.0.openRegions == [] ||
            (r.1 == |text| && r.0.regions != [] && r.0.openRegions == [r.0.regions[|r.0.regions| - 1]]
             && RegionEnd(r.0.openRegions[0]) == |text|)
  {
    BeginReading(text, start);
    var r := Run(text, start, Begin(start));
    FinishedRegions(text, start, r);
    (Finish(text, start, r, start), r.index)
  }

  lemma FinishedRegions(text: string, start: nat, r: Reader)
    requires Reading(text, start, r)
    requires r.index < |text| ==> Stops(text, r)
    ensures var w := Finish(text, start, r, start);
            && Ordered(w.regions)
            && (forall g :: g in w.regions ==> RegionOf(text, start, r.index, g))
            && (w.openRegions != [] ==> r.index == |text| && RegionEnd(w.openRegions[0]) == |text|)
  {
    hide Findings, IsSpace, IsOperator;
    var w := Finish(text, start, r, start);
    forall i | 0 <= i < |w.regions|
      ensures RegionOf(text, start, r.index, w.regions[i])
    {
      if i < |r.regions| {
        assert RegionIn(text, start, r.index, r.regions[i]);
      }
    }
  }

  lemma BeginReading(text: string, start: nat)
    requires start <= |text|
    ensures Reading(text, start, Begin(start))
  {
  }

  lemma ReadingBounds(text: string, start: nat, r: Reader)
    requires Reading(text, start, r)
    ensures |r.enclosing| == r.depth && (r.regionStart >= 0 <==> r.depth > 0) && r.regionStart <= |text|
    ensures r.index < |text| && ClosesSubstitution(text, r) ==> 0 <= r.regionStart <= r.index
  {
  }

  /** The word reader with its state in local variables.  The word is labelled with the line
      that `lineAt` gives for its first character. */
  method WordAt(text: string, start: nat, lineAt: nat -> nat) returns (word: Word, next: nat)
    requires start <= |text|
    ensures next == ReadWord(text, start).1
    ensures word == ReadWord(text, start).0.(line := lineAt(start))
  {
    hide Reading, IsSpace, IsOperator, Findings, IndexOf, ArithmeticEnd, QuoteOf, IsQuote, Closes;
    BeginReading(text, start);
    var index := start;
    var quote := NoQuote;
    var depth: nat := 0;
    var value, expandable := "", "";
    var regions: seq<Region> := [];
    var enclosing: seq<Quote> := [];
    var regionStart: int := -1;
    while index < |text|
      invariant index <= |text|
      invariant Reading(text, start, Reader(index, quote, depth, enclosing, regionStart, value, expandable, regions))
      invariant Run(text, start, Reader(index, quote, depth, enclosing, regionStart, value, expandable, regions))
             == Run(text, start, Begin(start))
    {
      ghost var before := Reader(index, quote, depth, enclosing, regionStart, value, expandable, regions);
      ReadingBounds(text, start, before);
      AdvanceKeepsReading(text, start, before);
      var c := text[index];
      if quote == NoQuote && depth == 0 && (IsSpace(c) || IsOperator(c)) {
        break;
      }
      if quote == NoQuote && IsQuote(c) {
        quote := QuoteOf(c);
        index := index + 1;
        assert Reader(index, quote, depth, enclosing, regionStart, value, expandable, regions) == Advance(text, start, before);
        continue;
      }
      if Closes(quote, c) {
        quote := NoQuote;
        index := index + 1;
        assert Reader(index, quote, depth, enclosing, regionStart, value, expandable, regions) == Advance(text, start, before);
        continue;
      }
      if c == '\\' && index + 1 < |text| {
        value := value + [text[index + 1]];
        index := index + 2;
        assert Reader(index, quote, depth, enclosing, regionStart, value, expandable, regions) == Advance(text, start, before);
        continue;
      }
      if quote != Single && StartsWith(text, "$((", index) {
        var end := ArithmeticEnd(text, index);
        var arithmetic := text[index..end];
        value, expandable := value + arithmetic, expandable + arithmetic;
        index := end;
        assert Reader(index, quote, depth, enclosing, regionStart, value, expandable, regions) == Advance(text, start, before);
        continue;
      }
      if quote != Single && c == '$' && index + 1 < |text| && text[index + 1] == '(' {
        enclosing := enclosing + [quote];
        quote := NoQuote;
        if depth == 0 {
          regionStart := index + 2;
        }
        depth := depth + 1;
      } else if quote == NoQuote && c == ')' && depth > 0 {
        depth := depth - 1;
        quote := enclosing[|enclosing| - 1];
        enclosing := enclosing[..|enclosing| - 1];
        if depth == 0 {
          regions := regions + [Region(text[regionStart..index], regionStart)];
          regionStart := -1;
        }
      }
      value := value + [c];
      if quote != Single {
        expandable := expandable + [c];
      }
      index := index + 1;
      assert Reader(index, quote, depth, enclosing, regionStart, value, expandable, regions) == Advance(text, start, before);
    }
    ReadingBounds(text, start, Reader(index, quote, depth, enclosing, regionStart, value, expandable, regions));
    var openRegions := [];
    if regionStart >= 0 {
      openRegions := [Region(text[regionStart..], regionStart)];
      regions := regions + openRegions;
    }
    var findings := FindingsIn(expandable);
    word := Word(value, text[start..index], lineAt(start), findings, quote, regions, openRegions);
    next := index;
  }
}
