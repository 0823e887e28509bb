/** Words written from bare, quoted and escaped pieces are read back piece by piece, and only
    what stands bare or raw in double quotes can expand. */
module WrittenWords {
  import opened Json
  import opened ShellText
  import opened ShellWords
  import opened ShellTokens
  import opened SourceText

  /** The word reader takes a backslash for an escape in single quotes too, and a `$(` for a
      substitution wherever a dollar is left as it is. */
  predicate IsWordPiece(p: Piece) {
    && IsPiece(p)
    && match p
       case Bare(s) => forall k :: 0 <= k < |s| ==> !IsSpace(s[k]) && s[k] !in ";|&<>("
       case InSingle(s) => '\\' !in s
       case Raw(s) => '(' !in s
       case _ => true
  }

  /** What is left of a text in double quotes once its escaped characters are taken out. */
  function Unescaped(s: string): string {
    if s == "" then "" else (if s[0] in "$`\"\\" then "" else [s[0]]) + Unescaped(s[1..])
  }

  /** What the shell can still expand in a piece. */
  function Exposed(p: Piece): string {
    match p
    case Bare(s) => s
    case Raw(s) => s
    case InDouble(s) => Unescaped(s)
    case _ => ""
  }

  function AllExposed(ps: seq<Piece>): string {
    if ps == [] then "" else Exposed(ps[0]) + AllExposed(ps[1..])
  }

  /** The reader at depth zero. */
  function Flat(start: nat, index: nat, quote: Quote, value: string, expandable: string): Reader {
    Begin(start).(index := index, quote := quote, value := value, expandable := expandable)
  }

  /** A character that is taken as it is. */
  predicate TakenAs(text: string, i: nat, quote: Quote)
    requires i < |text|
  {
    && text[i] != '\\' && !Closes(quote, text[i])
    && (quote == NoQuote ==> !IsQuote(text[i]) && !IsSpace(text[i]) && !IsOperator(text[i]))
    && (quote != Single && text[i] == '$' && i + 1 < |text| ==> text[i + 1] != '(')
  }

  lemma TakeOne(text: string, start: nat, i: nat, quote: Quote, value: string, expandable: string)
    requires i < |text| && Reading(text, start, Flat(start, i, quote, value, expandable)) && TakenAs(text, i, quote)
    ensures var next := Flat(start, i + 1, quote, value + [text[i]], if quote == Single then expandable else expandable + [text[i]]);
            && Reading(text, start, next)
            && Run(text, start, Flat(start, i, quote, value, expandable)) == Run(text, start, next)
  {
    hide Reading, IsSpace, IsOperator;
    var r := Flat(start, i, quote, value, expandable);
    StartsAt(text, "$((", i, 0);
    StartsAt(text, "$((", i, 1);
    AdvanceKeepsReading(text, start, r);
  }

  lemma {:induction false} TakeRun(text: string, start: nat, i: nat, s: string, quote: Quote, value: string, expandable: string)
    requires At(text, i, s) && Reading(text, start, Flat(start, i, quote, value, expandable))
    requires forall k :: i <= k < i + |s| ==> TakenAs(text, k, quote)
    ensures var next := Flat(start, i + |s|, quote, value + s, if quote == Single then expandable else expandable + s);
            && Reading(text, start, next)
            && Run(text, start, Flat(start, i, quote, value, expandable)) == Run(text, start, next)
    decreases |s|
  {
    hide Reading, TakenAs, Run, Flat, At;
    if s == "" {
      assert value + s == value && expandable + s == expandable;
    } else {
      assert s == [s[0]] + s[1..];
      AtParts(text, i, [s[0]], s[1..]);
      CharactersAt(text, i, [s[0]]);
      assert [s[0]][0] == text[i];
      TakeOne(text, start, i, quote, value, expandable);
      var more := if quote == Single then expandable else expandable + [s[0]];
      TakeRun(text, start, i + 1, s[1..], quote, value + [s[0]], more);
      assert value + s == (value + [s[0]]) + s[1..];
      assert expandable + s == (expandable + [s[0]]) + s[1..];
    }
  }

  /** A backslash takes the next character with it, whatever the quote. */
  lemma TakeEscaped(text: string, start: nat, i: nat, quote: Quote, value: string, expandable: string)
    requires i + 1 < |text| && text[i] == '\\' && Reading(text, start, Flat(start, i, quote, value, expandable))
    ensures var next := Flat(start, i + 2, quote, value + [text[i + 1]], expandable);
            && Reading(text, start, next)
            && Run(text, start, Flat(start, i, quote, value, expandable)) == Run(text, start, next)
  {
    hide Reading;
    AdvanceKeepsReading(text, start, Flat(start, i, quote, value, expandable));
  }

  lemma OpenQuote(text: string, start: nat, i: nat, value: string, expandable: string)
    requires i < |text| && IsQuote(text[i]) && Reading(text, start, Flat(start, i, NoQuote, value, expandable))
    ensures var next := Flat(start, i + 1, QuoteOf(text[i]), value, expandable);
            && Reading(text, start, next)
            && Run(text, start, Flat(start, i, NoQuote, value, expandable)) == Run(text, start, next)
  {
    hide Reading;
    AdvanceKeepsReading(text, start, Flat(start, i, NoQuote, value, expandable));
  }

  lemma CloseQuote(text: string, start: nat, i: nat, quote: Quote, value: string, expandable: string)
    requires i < |text| && Closes(quote, text[i]) && Reading(text, start, Flat(start, i, quote, value, expandable))
    ensures var next := Flat(start, i + 1, NoQuote, value, expandable);
            && Reading(text, start, next)
            && Run(text, start, Flat(start, i, quote, value, expandable)) == Run(text, start, next)
  {
    hide Reading;
    AdvanceKeepsReading(text, start, Flat(start, i, quote, value, expandable));
  }

  lemma {:induction false} TakeQuoted(text: string, start: nat, i: nat, s: string, value: string, expandable: string)
    requires At(text, i, InQuotes(s)) && Reading(text, start, Flat(start, i, Double, value, expandable))
    ensures var next := Flat(start, i + |InQuotes(s)|, Double, value + s, expandable + Unescaped(s));
            && Reading(text, start, next)
            && Run(text, start, Flat(start, i, Double, value, expandable)) == Run(text, start, next)
    decreases |s|
  {
    hide Reading, Run, InQuotes, Unescaped, Flat, TakenAs;
    if s == "" {
      NothingQuoted();
      assert value + s == value && expandable + "" == expandable;
    } else {
      var c, more := s[0], s[1..];
      QuotedHead(text, i, s);
      UnescapedHead(s);
      assert value + s == (value + [c]) + more;
      if c in "$`\"\\" {
        TakeEscaped(text, start, i, Double, value, expandable);
        TakeQuoted(text, start, i + 2, more, value + [c], expandable);
      } else {
        PlainInQuotes(text, i, c);
        TakeOne(text, start, i, Double, value, expandable);
        TakeQuoted(text, start, i + 1, more, value + [c], expandable + [c]);
        assert expandable + ([c] + Unescaped(more)) == (expandable + [c]) + Unescaped(more);
      }
    }
  }

  lemma UnescapedHead(s: string)
    requires s != ""
    ensures Unescaped(s) == if s[0] in "$`\"\\" then Unescaped(s[1..]) else [s[0]] + Unescaped(s[1..])
  {
    assert "" + Unescaped(s[1..]) == Unescaped(s[1..]);
  }

  lemma NothingQuoted()
    ensures InQuotes("") == "" && Unescaped("") == ""
  {
  }

  lemma PlainInQuotes(text: string, i: nat, c: char)
    requires i < |text| && text[i] == c && c !in "$`\"\\"
    ensures TakenAs(text, i, Double)
  {
  }

  predicate NoParenthesisAt(text: string, i: nat) {
    i < |text| ==> text[i] != '('
  }

  lemma BareTaken(text: string, i: nat, s: string)
    requires At(text, i, s) && IsWordPiece(Bare(s)) && NoParenthesisAt(text, i + |s|)
    ensures forall k :: i <= k < i + |s| ==> TakenAs(text, k, NoQuote)
  {
    CharactersAt(text, i, s);
  }

  lemma RawTaken(text: string, i: nat, s: string)
    requires At(text, i, s) && IsWordPiece(Raw(s)) && NoParenthesisAt(text, i + |s|)
    ensures forall k :: i <= k < i + |s| ==> TakenAs(text, k, Double)
  {
    CharactersAt(text, i, s);
  }

  lemma SingleTaken(text: string, i: nat, s: string)
    requires At(text, i, s) && IsWordPiece(InSingle(s))
    ensures forall k :: i <= k < i + |s| ==> TakenAs(text, k, Single)
  {
    CharactersAt(text, i, s);
  }

  /** One piece, from its first character to the one behind it. */
  lemma PieceTaken(text: string, start: nat, i: nat, p: Piece, value: string, expandable: string)
    requires At(text, i, WritePiece(p)) && IsWordPiece(p) && NoParenthesisAt(text, i + |WritePiece(p)|)
    requires Reading(text, start, Flat(start, i, NoQuote, value, expandable))
    ensures var next := Flat(start, i + |WritePiece(p)|, NoQuote, value + PieceText(p), expandable + Exposed(p));
            && Reading(text, start, next)
            && Run(text, start, Flat(start, i, NoQuote, value, expandable)) == Run(text, start, next)
  {
    hide Reading, Run, InQuotes, Unescaped, TakenAs, Flat, At;
    match p
    case Bare(s) =>
      BareTaken(text, i, s);
      TakeRun(text, start, i, s, NoQuote, value, expandable);
    case InSingle(s) => SingleQuotesTaken(text, start, i, s, value, expandable);
    case Raw(s) => RawQuotesTaken(text, start, i, s, value, expandable);
    case InDouble(s) => DoubleQuotesTaken(text, start, i, s, value, expandable);
    case Escaped(c) =>
      CharactersAt(text, i, ['\\', c]);
      AtWithin(text, i, ['\\', c]);
      assert ['\\', c][0] == text[i] && ['\\', c][1] == text[i + 1];
      TakeEscaped(text, start, i, NoQuote, value, expandable);
      assert expandable + "" == expandable;
  }

  lemma SingleQuotesTaken(text: string, start: nat, i: nat, s: string, value: string, expandable: string)
    requires At(text, i, "'" + s + "'") && IsWordPiece(InSingle(s))
    requires Reading(text, start, Flat(start, i, NoQuote, value, expandable))
    ensures var next := Flat(start, i + |s| + 2, NoQuote, value + s, expandable + "");
            && Reading(text, start, next)
            && Run(text, start, Flat(start, i, NoQuote, value, expandable)) == Run(text, start, next)
  {
    hide Reading, Run, TakenAs, Flat, At, IsWordPiece;
    Between(text, i, '\'', s);
    AtWithin(text, i, "'" + s + "'");
    OpenQuote(text, start, i, value, expandable);
    SingleTaken(text, i + 1, s);
    TakeRun(text, start, i + 1, s, Single, value, expandable);
    CloseQuote(text, start, i + 1 + |s|, Single, value + s, expandable);
    assert expandable + "" == expandable;
  }

  lemma RawQuotesTaken(text: string, start: nat, i: nat, s: string, value: string, expandable: string)
    requires At(text, i, "\"" + s + "\"") && IsWordPiece(Raw(s))
    requires Reading(text, start, Flat(start, i, NoQuote, value, expandable))
    ensures var next := Flat(start, i + |s| + 2, NoQuote, value + s, expandable + s);
            && Reading(text, start, next)
            && Run(text, start, Flat(start, i, NoQuote, value, expandable)) == Run(text, start, next)
  {
    hide Reading, Run, TakenAs, Flat, At, IsWordPiece;
    Between(text, i, '"', s);
    AtWithin(text, i, "\"" + s + "\"");
    OpenQuote(text, start, i, value, expandable);
    RawTaken(text, i + 1, s);
    TakeRun(text, start, i + 1, s, Double, value, expandable);
    CloseQuote(text, start, i + 1 + |s|, Double, value + s, expandable + s);
  }

  lemma DoubleQuotesTaken(text: string, start: nat, i: nat, s: string, value: string, expandable: string)
    requires At(text, i, "\"" + InQuotes(s) + "\"")
    requires Reading(text, start, Flat(start, i, NoQuote, value, expandable))
    ensures var next := Flat(start, i + |InQuotes(s)| + 2, NoQuote, value + s, expandable + Unescaped(s));
            && Reading(text, start, next)
            && Run(text, start, Flat(start, i, NoQuote, value, expandable)) == Run(text, start, next)
  {
    hide Reading, Run, InQuotes, Unescaped, Flat, At;
    Between(text, i, '"', InQuotes(s));
    AtWithin(text, i, "\"" + InQuotes(s) + "\"");
    OpenQuote(text, start, i, value, expandable);
    TakeQuoted(text, start, i + 1, s, value, expandable);
    CloseQuote(text, start, i + 1 + |InQuotes(s)|, Double, value + s, expandable + Unescaped(s));
  }

  predicate AreWordPieces(ps: seq<Piece>) {
    forall k :: 0 <= k < |ps| ==> IsWordPiece(ps[k])
  }

  lemma {:induction false} NoParenthesisFirst(ps: seq<Piece>, rest: string)
    requires AreWordPieces(ps) && (rest == "" || rest[0] != '(')
    ensures Write(ps) + rest == "" || (Write(ps) + rest)[0] != '('
  {
    hide InQuotes, IsSpace;
    if ps == [] {
      assert Write(ps) + rest == rest;
    } else {
      NoParenthesisFirst(ps[1..], rest);
      assert IsWordPiece(ps[0]);
      var w, more := WritePiece(ps[0]), Write(ps[1..]) + rest;
      assert Write(ps) + rest == w + more;
      if w == "" {
        assert w + more == more;
      }
    }
  }

  lemma {:induction false} PiecesTaken(text: string, start: nat, i: nat, ps: seq<Piece>, rest: string, value: string, expandable: string)
    requires i <= |text| && text[i..] == Write(ps) + rest && AreWordPieces(ps) && (rest == "" || rest[0] != '(')
    requires Reading(text, start, Flat(start, i, NoQuote, value, expandable))
    ensures var next := Flat(start, i + |Write(ps)|, NoQuote, value + Meant(ps), expandable + AllExposed(ps));
            && Reading(text, start, next)
            && Run(text, start, Flat(start, i, NoQuote, value, expandable)) == Run(text, start, next)
    decreases |ps|
  {
    hide Reading, Run, WritePiece, PieceText, Exposed, IsWordPiece, Flat, At, Write, Meant, AllExposed, NoParenthesisAt;
    if ps == [] {
      NoPieces();
      assert value + "" == value && expandable + "" == expandable;
    } else {
      var p, w := ps[0], WritePiece(ps[0]);
      PieceAhead(text, i, ps, rest);
      PieceTaken(text, start, i, p, value, expandable);
      PiecesTaken(text, start, i + |w|, ps[1..], rest, value + PieceText(p), expandable + Exposed(p));
      assert value + (PieceText(p) + Meant(ps[1..])) == (value + PieceText(p)) + Meant(ps[1..]);
      assert expandable + (Exposed(p) + AllExposed(ps[1..])) == (expandable + Exposed(p)) + AllExposed(ps[1..]);
    }
  }

  lemma NoPieces()
    ensures Write([]) == "" && Meant([]) == "" && AllExposed([]) == ""
  {
  }

  lemma PieceAhead(text: string, i: nat, ps: seq<Piece>, rest: string)
    requires ps != [] && i <= |text| && text[i..] == Write(ps) + rest && AreWordPieces(ps) && (rest == "" || rest[0] != '(')
    ensures var w := WritePiece(ps[0]);
            && At(text, i, w) && IsWordPiece(ps[0]) && NoParenthesisAt(text, i + |w|)
            && i + |w| <= |text| && text[i + |w|..] == Write(ps[1..]) + rest
            && |Write(ps)| == |w| + |Write(ps[1..])|
    ensures Meant(ps) == PieceText(ps[0]) + Meant(ps[1..]) && AllExposed(ps) == Exposed(ps[0]) + AllExposed(ps[1..])
  {
    hide WritePiece, PieceText, Exposed, IsWordPiece, At, Write, NoParenthesisAt;
    var w, more := WritePiece(ps[0]), Write(ps[1..]) + rest;
    WriteHead(ps, rest);
    Ahead(text, i, w, more);
    NoParenthesisFirst(ps[1..], rest);
  }

  lemma WriteHead(ps: seq<Piece>, rest: string)
    requires ps != []
    ensures Write(ps) + rest == WritePiece(ps[0]) + (Write(ps[1..]) + rest)
    ensures |Write(ps)| == |WritePiece(ps[0])| + |Write(ps[1..])|
  {
    hide WritePiece;
  }

  lemma Ahead(text: string, i: nat, a: string, b: string)
    requires i <= |text| && text[i..] == a + b
    ensures At(text, i, a) && i + |a| <= |text| && text[i + |a|..] == b
    ensures (b == "" || b[0] != '(') ==> NoParenthesisAt(text, i + |a|)
  {
    var here := text[i..];
    assert here[..|a|] == a && here[..|a|] == text[i..i + |a|];
    assert here[|a|..] == b && here[|a|..] == text[i + |a|..];
  }

  /** A word written from pieces is read to its end as the text of its pieces, closed and without
      substitutions, and holds an expansion if and only if what is exposed in it does. */
  lemma WrittenWord(text: string, start: nat, ps: seq<Piece>, rest: string)
    requires start <= |text| && text[start..] == Write(ps) + rest && AreWordPieces(ps)
    requires rest == "" || IsSpace(rest[0]) || rest[0] in ";|&<>"
    ensures var (w, next) := ReadWord(text, start);
            && next == start + |Write(ps)| && w.text == Meant(ps)
            && w.openQuote == NoQuote && w.regions == []
            && (w.expandable != [] <==> HoldsExpansion(AllExposed(ps)))
  {
    hide Reading, Write, Meant, AllExposed, Findings, HoldsExpansion, IsSpace, AreWordPieces;
    BeginReading(text, start);
    WhereItEnds(text, start, |Write(ps)|, rest);
    PiecesTaken(text, start, start, ps, rest, "", "");
    var last := Flat(start, start + |Write(ps)|, NoQuote, Meant(ps), AllExposed(ps));
    assert "" + Meant(ps) == Meant(ps) && "" + AllExposed(ps) == AllExposed(ps);
    assert Run(text, start, Begin(start)) == Run(text, start, last) == last;
    ExpandsExactly(AllExposed(ps));
  }

  lemma WhereItEnds(text: string, start: nat, n: nat, rest: string)
    requires start + n <= |text| && text[start..][n..] == rest
    requires rest == "" || IsSpace(rest[0]) || rest[0] in ";|&<>"
    ensures var end := start + n;
            && (rest == "" || rest[0] != '(') && (rest == "" <==> end == |text|)
            && (end < |text| ==> text[end] == rest[0] && (IsSpace(text[end]) || IsOperator(text[end])))
  {
    assert text[start + n..] == rest;
    assert !IsSpace('(');
  }

  /** What stands in single quotes, escaped in double quotes or behind backslashes never
      expands. */
  lemma {:induction false} QuotingProtects(ps: seq<Piece>)
    requires forall k :: 0 <= k < |ps| ==> ps[k].InSingle? || ps[k].InDouble? || ps[k].Escaped?
    ensures !HoldsExpansion(AllExposed(ps))
    ensures forall k :: 0 <= k < |AllExposed(ps)| ==> AllExposed(ps)[k] !in "$`"
  {
    hide HoldsExpansion, Unescaped;
    if ps == [] {
    } else {
      QuotingProtects(ps[1..]);
      if ps[0].InDouble? {
        NothingEscapes(ps[0].text);
      }
    }
    NothingLive(AllExposed(ps));
  }

  lemma {:induction false} NothingEscapes(s: string)
    ensures forall k :: 0 <= k < |Unescaped(s)| ==> Unescaped(s)[k] !in "$`"
  {
    if s == "" {
    } else {
      NothingEscapes(s[1..]);
    }
  }

  lemma NothingLive(s: string)
    requires forall k :: 0 <= k < |s| ==> s[k] !in "$`"
    ensures !HoldsExpansion(s)
  {
    hide OddBefore;
  }
}
