/** Which token starts at a position of a command line, told from the characters there, and
    what is read back from quoted delimiters and from command lines written word by word. */
module ShellTokens {
  import opened Json
  import opened ShellText
  import opened ShellWords
  import opened ShellCommands

  // ---------- redirection operators ----------

  /** A redirection operator of `n` characters: the longest that starts at `i`. */
  predicate OperatorAt(text: string, i: nat, n: nat) {
    && i + n <= |text|
    && match n
       case 3 => text[i..i + 3] == "&>>"
       case 2 => text[i..i + 2] in {">>", ">|", "<>", ">&", "<&", "&>"} && !(i + 3 <= |text| && text[i..i + 3] == "&>>")
       case 1 => text[i..i + 1] in {"<", ">"} && !(i + 2 <= |text| && text[i..i + 2] in {">>", ">|", "<>", ">&", "<&"})
       case _ => false
  }

  predicate Redirects(text: string, i: nat) {
    i < |text| && (text[i] == '<' || text[i] == '>' || (text[i] == '&' && i + 1 < |text| && text[i + 1] == '>'))
  }

  lemma OperatorExactly(text: string, i: nat)
    requires i <= |text|
    ensures var n := RedirectionAt(text, i);
            if Redirects(text, i) then OperatorAt(text, i, n) else n == 0
  {
    var three, two, one := if i + 3 <= |text| then text[i..i + 3] else "", if i + 2 <= |text| then text[i..i + 2] else "",
                           if i < |text| then text[i..i + 1] else "";
    OperatorIs(text, i, three, two, one);
    if i + 3 <= |text| {
      assert three[0] == text[i] && three[1] == text[i + 1];
    }
    if i + 2 <= |text| {
      assert two[0] == text[i] && two[1] == text[i + 1];
    }
    if i < |text| {
      assert one == [text[i]];
    }
  }

  /** The list of operators, tried in its order. */
  lemma OperatorIs(text: string, i: nat, three: string, two: string, one: string)
    requires i <= |text|
    requires three == (if i + 3 <= |text| then text[i..i + 3] else "")
    requires two == (if i + 2 <= |text| then text[i..i + 2] else "")
    requires one == (if i < |text| then text[i..i + 1] else "")
    ensures RedirectionAt(text, i) ==
            if three == "&>>" then 3
            else if two in {">>", ">|", "<>", ">&", "<&", "&>"} then 2
            else if one in {">", "<"} then 1
            else 0
  {
    assert REDIRECTIONS == ["&>>", ">>", ">|", "<>", ">&", "<&", "&>", ">", "<"];
    hide StartsWith;
    Matches(text, i, three, two, one);
    assert RedirectionAt(text, i, 9) == 0;
    assert RedirectionAt(text, i, 7) == if one == ">" then 1 else if one == "<" then 1 else 0;
    assert RedirectionAt(text, i, 5) == if two == "<&" then 2 else if two == "&>" then 2 else RedirectionAt(text, i, 7);
    assert RedirectionAt(text, i, 3) == if two == "<>" then 2 else if two == ">&" then 2 else RedirectionAt(text, i, 5);
    assert RedirectionAt(text, i, 1) == if two == ">>" then 2 else if two == ">|" then 2 else RedirectionAt(text, i, 3);
  }

  lemma Matches(text: string, i: nat, three: string, two: string, one: string)
    requires i <= |text|
    requires three == (if i + 3 <= |text| then text[i..i + 3] else "")
    requires two == (if i + 2 <= |text| then text[i..i + 2] else "")
    requires one == (if i < |text| then text[i..i + 1] else "")
    ensures forall p: string :: |p| == 3 ==> (StartsWith(text, p, i) <==> three == p)
    ensures forall p: string :: |p| == 2 ==> (StartsWith(text, p, i) <==> two == p)
    ensures forall p: string :: |p| == 1 ==> (StartsWith(text, p, i) <==> one == p)
  {
  }

  // ---------- tokens ----------

  lemma WordGoesOn(text: string, start: nat)
    requires start <= |text|
    ensures ReadWord(text, start).1 > start <==> start < |text| && !IsSpace(text[start]) && text[start] !in ";|&<>"
  {
    hide Reading, IsSpace;
    BeginReading(text, start);
    if start < |text| && !Stops(text, Begin(start)) {
      AdvanceKeepsReading(text, start, Begin(start));
    }
  }

  /** Position `to` is the first from `from` on that holds no space, or the end. */
  predicate SpacesTo(text: string, from: nat, to: nat) {
    && from <= to <= |text|
    && (forall k :: from <= k < to ==> IsSpace(text[k]))
    && (to < |text| ==> !IsSpace(text[to]))
  }

  predicate DigitsTo(text: string, from: nat, to: nat) {
    && from <= to <= |text|
    && (forall k :: from <= k < to ==> '0' <= text[k] <= '9')
    && (to < |text| ==> !('0' <= text[to] <= '9'))
  }

  /** A redirection starts here, after the number of a descriptor if there is one. */
  predicate RedirectsFrom(text: string, cursor: nat) {
    exists d: nat :: d <= |text| && DigitsTo(text, cursor, d) && Redirects(text, d)
  }

  predicate At(text: string, i: nat, pattern: string) {
    i + |pattern| <= |text| && text[i..i + |pattern|] == pattern
  }

  /** A heredoc's delimiter starts at `from`, behind `<<` or `<<-` and spaces. */
  predicate DelimiterAt(text: string, cursor: nat, stripTabs: bool, from: nat) {
    && At(text, cursor, "<<") && !At(text, cursor, "<<<")
    && (stripTabs <==> At(text, cursor + 2, "-"))
    && SpacesTo(text, if stripTabs then cursor + 3 else cursor + 2, from)
    && from < |text| && text[from] !in ";|&<>"
  }

  lemma DigitsOnce(text: string, cursor: nat)
    requires cursor <= |text|
    ensures forall d: nat :: d <= |text| ==> (DigitsTo(text, cursor, d) <==> d == RunEnd(text, cursor, IsDigit))
  {
  }

  lemma SpacesOnce(text: string, from: nat)
    requires from <= |text|
    ensures forall to: nat :: SpacesTo(text, from, to) <==> to == SkipSpaces(text, from)
  {
  }

  lemma RedirectionExactly(text: string, cursor: nat)
    requires cursor < |text|
    ensures RedirectionEnd(text, cursor).Some? <==> RedirectsFrom(text, cursor)
    ensures forall d: nat, n: nat, target: nat ::
              DigitsTo(text, cursor, d) && Redirects(text, d) && OperatorAt(text, d, n) && SpacesTo(text, d + n, target) ==>
              RedirectionEnd(text, cursor) == Some(ReadWord(text, target).1)
  {
    hide Redirects, OperatorAt, ReadWord, DigitsTo, SpacesTo, RunEnd;
    var d := RunEnd(text, cursor, IsDigit);
    DigitsOnce(text, cursor);
    DigitsWithin(text, cursor);
    OperatorExactly(text, d);
    OperatorOnce(text, d);
    forall c: nat, n: nat, target: nat | DigitsTo(text, cursor, c) && Redirects(text, c) && OperatorAt(text, c, n) && SpacesTo(text, c + n, target)
      ensures RedirectionEnd(text, cursor) == Some(ReadWord(text, target).1)
    {
      assert c == d && n == RedirectionAt(text, d);
      SpacesOnce(text, d + n);
    }
  }

  lemma DigitsWithin(text: string, cursor: nat)
    ensures forall d: nat :: DigitsTo(text, cursor, d) ==> d <= |text|
    ensures forall from: nat, to: nat :: SpacesTo(text, from, to) ==> to <= |text|
  {
  }

  lemma OperatorOnce(text: string, i: nat)
    ensures forall n: nat, m: nat :: OperatorAt(text, i, n) && OperatorAt(text, i, m) ==> n == m
    ensures !OperatorAt(text, i, 0)
  {
    if i + 3 <= |text| {
      var three, two := text[i..i + 3], text[i..i + 2];
      assert three[0] == two[0] == text[i] && three[1] == two[1] == text[i + 1];
    }
    if i + 2 <= |text| {
      var two, one := text[i..i + 2], text[i..i + 1];
      assert two[0] == one[0] == text[i];
    }
  }

  /** Which token starts at a character that is no space.  A hash begins a comment; `<<` a
      heredoc, if a delimiter follows; a separator is a run of semicolons, bars and
      ampersands that is no redirection; and what is none of these, no redirection, no
      here-string and no arithmetic command is a word. */
  lemma TokenExactly(text: string, cursor: nat)
    requires cursor < |text| && !IsSpace(text[cursor])
    ensures var t := TokenAt(text, cursor);
            && (t.Nothing? <==> text[cursor] == '#')
            && (t.Separator? <==> text[cursor] in ";|&" && !Redirects(text, cursor))
            && (t.Separator? ==>
                  && (forall k :: cursor <= k < t.next ==> text[k] in ";|&")
                  && (t.next < |text| ==> text[t.next] !in ";|&"))
            && (t.Delimiting? <==> exists stripTabs, from: nat :: DelimiterAt(text, cursor, stripTabs, from))
            && (forall stripTabs, from: nat :: DelimiterAt(text, cursor, stripTabs, from) ==>
                  t == Delimiting(ReadWord(text, from).0, stripTabs, ReadWord(text, from).1))
            && (t.Argument? <==> text[cursor] !in "#;|&<>" && !At(text, cursor, "((") && !RedirectsFrom(text, cursor))
            && (t.Argument? ==> t == Argument(ReadWord(text, cursor).0, ReadWord(text, cursor).1))
  {
    hide ReadWord, IsSpace, Redirects, RedirectionEnd, RunEnd, SpacesTo, IndexOf, DigitsTo;
    WordGoesOn(text, cursor);
    RedirectionExactly(text, cursor);
    Beginnings(text, cursor);
    SeparatorEnds(text, cursor);
    var dash := cursor + 2 < |text| && text[cursor + 2] == '-';
    if At(text, cursor, "<<") {
      var from := SkipSpaces(text, if dash then cursor + 3 else cursor + 2);
      SpacesOnce(text, if dash then cursor + 3 else cursor + 2);
      WordGoesOn(text, from);
      NoSpaceLeft(text, if dash then cursor + 3 else cursor + 2);
      assert DelimiterAt(text, cursor, dash, from) <==> !At(text, cursor, "<<<") && ReadWord(text, from).1 > from;
    }
  }

  lemma NoSpaceLeft(text: string, from: nat)
    requires from <= |text|
    ensures var to := SkipSpaces(text, from); to < |text| ==> !IsSpace(text[to])
  {
  }

  lemma SeparatorEnds(text: string, cursor: nat)
    requires cursor < |text|
    ensures var end := RunEnd(text, cursor, IsSeparator);
            (forall k :: cursor <= k < end ==> text[k] in ";|&") && (end < |text| ==> text[end] !in ";|&")
  {
  }

  /** What the first characters exclude. */
  lemma Beginnings(text: string, cursor: nat)
    requires cursor < |text|
    ensures At(text, cursor, "<<<") ==> At(text, cursor, "<<")
    ensures At(text, cursor, "<<") ==> text[cursor] == '<'
    ensures At(text, cursor, "((") ==> text[cursor] == '('
    ensures At(text, cursor + 2, "-") <==> cursor + 2 < |text| && text[cursor + 2] == '-'
    ensures text[cursor] == '<' || text[cursor] == '>' ==> RedirectsFrom(text, cursor) && Redirects(text, cursor)
    ensures Redirects(text, cursor) ==> RedirectsFrom(text, cursor)
    ensures text[cursor] in "#;|&" && RedirectsFrom(text, cursor) ==> Redirects(text, cursor)
    ensures text[cursor] in "#;|" ==> !Redirects(text, cursor)
  {
    DigitsOnce(text, cursor);
    StartsAt(text, "<<", cursor, 0);
    StartsAt(text, "((", cursor, 0);
    if At(text, cursor, "<<<") {
      assert text[cursor..cursor + 3][..2] == text[cursor..cursor + 2];
    }
    if text[cursor] in "#;|&<>" {
      assert DigitsTo(text, cursor, cursor);
    }
  }

  // ---------- quoted delimiters ----------

  /** A piece of a word as it is written: bare, in single quotes, in double quotes with what is
      special there escaped or left as it is, or escaped by itself. */
  datatype Piece = Bare(text: string) | InSingle(text: string) | InDouble(text: string) | Raw(text: string) | Escaped(c: char)

  /** Inside double quotes a backslash protects these four. */
  function InQuotes(s: string): string {
    if s == "" then ""
    else (if s[0] in "$`\"\\" then ['\\', s[0]] else [s[0]]) + InQuotes(s[1..])
  }

  function WritePiece(p: Piece): string {
    match p
    case Bare(s) => s
    case InSingle(s) => "'" + s + "'"
    case InDouble(s) => "\"" + InQuotes(s) + "\""
    case Raw(s) => "\"" + s + "\""
    case Escaped(c) => ['\\', c]
  }

  function PieceText(p: Piece): string {
    if p.Escaped? then [p.c] else p.text
  }

  /** A bare piece holds no quote and no backslash, a single-quoted one no single quote, and one
      left raw in double quotes no double quote and no backslash. */
  predicate IsPiece(p: Piece) {
    match p
    case Bare(s) => forall k :: 0 <= k < |s| ==> s[k] !in "'\"\\"
    case InSingle(s) => '\'' !in s
    case Raw(s) => forall k :: 0 <= k < |s| ==> s[k] !in "\"\\"
    case _ => true
  }

  function Write(ps: seq<Piece>): string {
    if ps == [] then "" else WritePiece(ps[0]) + Write(ps[1..])
  }

  function Meant(ps: seq<Piece>): string {
    if ps == [] then "" else PieceText(ps[0]) + Meant(ps[1..])
  }

  predicate AllBare(ps: seq<Piece>) {
    forall k :: 0 <= k < |ps| ==> ps[k].Bare?
  }

  lemma AtParts(text: string, i: nat, a: string, b: string)
    requires At(text, i, a + b)
    ensures At(text, i, a) && At(text, i + |a|, b)
  {
    var here := text[i..i + |a + b|];
    assert here[..|a|] == a && here[..|a|] == text[i..i + |a|];
    assert here[|a|..] == b && here[|a|..] == text[i + |a|..i + |a| + |b|];
  }

  lemma CharactersAt(text: string, i: nat, s: string)
    requires At(text, i, s)
    ensures forall k :: i <= k < i + |s| ==> text[k] == s[k - i]
  {
    assert forall k :: i <= k < i + |s| ==> text[i..i + |s|][k - i] == text[k];
  }

  lemma AtWithin(text: string, i: nat, s: string)
    requires At(text, i, s)
    ensures i + |s| <= |text|
  {
  }

  lemma InQuotesHead(s: string)
    requires s != ""
    ensures InQuotes(s) == (if s[0] in "$`\"\\" then ['\\', s[0]] else [s[0]]) + InQuotes(s[1..])
  {
  }

  /** How a text in double quotes begins, and where the rest of it stands. */
  lemma QuotedHead(text: string, i: nat, s: string)
    requires s != "" && At(text, i, InQuotes(s))
    ensures var n := if s[0] in "$`\"\\" then 2 else 1;
            && i + n <= |text| && At(text, i + n, InQuotes(s[1..])) && |InQuotes(s)| == n + |InQuotes(s[1..])|
            && (n == 2 ==> text[i] == '\\' && text[i + 1] == s[0]) && (n == 1 ==> text[i] == s[0])
  {
    hide At, InQuotes;
    InQuotesHead(s);
    var first := if s[0] in "$`\"\\" then ['\\', s[0]] else [s[0]];
    assert InQuotes(s) == first + InQuotes(s[1..]);
    AtParts(text, i, first, InQuotes(s[1..]));
    CharactersAt(text, i, first);
    AtWithin(text, i, first);
    assert first[0] == text[i] && (|first| == 2 ==> first[1] == text[i + 1]);
  }

  lemma {:induction false} BareRun(word: string, i: nat, s: string, done: Delimiter)
    requires At(word, i, s) && IsPiece(Bare(s))
    ensures Unquote(word, i, NoQuote, done) == Unquote(word, i + |s|, NoQuote, done.(delimiter := done.delimiter + s))
    decreases |s|
  {
    if s == "" {
      assert done.delimiter + s == done.delimiter;
    } else {
      assert word[i..i + |s|][0] == word[i] && word[i + 1..i + |s|] == word[i..i + |s|][1..];
      BareRun(word, i + 1, s[1..], done.(delimiter := done.delimiter + [s[0]]));
      assert done.delimiter + s == (done.delimiter + [s[0]]) + s[1..];
    }
  }

  lemma {:induction false} SingleRun(word: string, i: nat, s: string, done: Delimiter)
    requires At(word, i, s) && '\'' !in s
    ensures Unquote(word, i, Single, done) == Unquote(word, i + |s|, Single, done.(delimiter := done.delimiter + s))
    decreases |s|
  {
    if s == "" {
      assert done.delimiter + s == done.delimiter;
    } else {
      assert word[i..i + |s|][0] == word[i] && word[i + 1..i + |s|] == word[i..i + |s|][1..];
      SingleRun(word, i + 1, s[1..], done.(delimiter := done.delimiter + [s[0]]));
      assert done.delimiter + s == (done.delimiter + [s[0]]) + s[1..];
    }
  }

  lemma NoQuotes()
    ensures InQuotes("") == ""
  {
  }

  lemma {:induction false} DoubleRun(word: string, i: nat, s: string, done: Delimiter)
    requires At(word, i, InQuotes(s))
    ensures Unquote(word, i, Double, done) == Unquote(word, i + |InQuotes(s)|, Double, done.(delimiter := done.delimiter + s))
    decreases |s|
  {
    hide InQuotes, At;
    NoQuotes();
    if s == "" {
      assert done.delimiter + s == done.delimiter;
    } else {
      QuotedHead(word, i, s);
      DoubleRun(word, i + (if s[0] in "$`\"\\" then 2 else 1), s[1..], done.(delimiter := done.delimiter + [s[0]]));
      assert done.delimiter + s == (done.delimiter + [s[0]]) + s[1..];
    }
  }

  lemma {:induction false} RawRun(word: string, i: nat, s: string, done: Delimiter)
    requires At(word, i, s) && IsPiece(Raw(s))
    ensures Unquote(word, i, Double, done) == Unquote(word, i + |s|, Double, done.(delimiter := done.delimiter + s))
    decreases |s|
  {
    if s == "" {
      assert done.delimiter + s == done.delimiter;
    } else {
      assert word[i..i + |s|][0] == word[i] && word[i + 1..i + |s|] == word[i..i + |s|][1..];
      RawRun(word, i + 1, s[1..], done.(delimiter := done.delimiter + [s[0]]));
      assert done.delimiter + s == (done.delimiter + [s[0]]) + s[1..];
    }
  }

  lemma RawQuoted(word: string, i: nat, s: string, done: Delimiter)
    requires At(word, i, "\"" + s + "\"") && IsPiece(Raw(s))
    ensures Unquote(word, i, NoQuote, done) == Unquote(word, i + |s| + 2, NoQuote, Delimiter(done.delimiter + s, false))
  {
    Between(word, i, '"', s);
    RawRun(word, i + 1, s, done.(expanding := false));
  }

  lemma PieceRead(word: string, i: nat, p: Piece, done: Delimiter)
    requires At(word, i, WritePiece(p)) && IsPiece(p)
    ensures Unquote(word, i, NoQuote, done) ==
            Unquote(word, i + |WritePiece(p)|, NoQuote, Delimiter(done.delimiter + PieceText(p), done.expanding && p.Bare?))
  {
    hide InQuotes, Unquote;
    match p
    case Bare(s) => BareRun(word, i, s, done);
    case InSingle(s) => SingleQuoted(word, i, s, done);
    case InDouble(s) => DoubleQuoted(word, i, s, done);
    case Raw(s) => RawQuoted(word, i, s, done);
    case Escaped(c) => EscapedOne(word, i, c, done);
  }

  lemma SingleQuoted(word: string, i: nat, s: string, done: Delimiter)
    requires At(word, i, "'" + s + "'") && '\'' !in s
    ensures Unquote(word, i, NoQuote, done) == Unquote(word, i + |s| + 2, NoQuote, Delimiter(done.delimiter + s, false))
  {
    Between(word, i, '\'', s);
    SingleRun(word, i + 1, s, done.(expanding := false));
  }

  lemma DoubleQuoted(word: string, i: nat, s: string, done: Delimiter)
    requires At(word, i, "\"" + InQuotes(s) + "\"")
    ensures Unquote(word, i, NoQuote, done) == Unquote(word, i + |InQuotes(s)| + 2, NoQuote, Delimiter(done.delimiter + s, false))
  {
    hide InQuotes;
    Between(word, i, '"', InQuotes(s));
    DoubleRun(word, i + 1, s, done.(expanding := false));
  }

  lemma EscapedOne(word: string, i: nat, c: char, done: Delimiter)
    requires At(word, i, ['\\', c])
    ensures Unquote(word, i, NoQuote, done) == Unquote(word, i + 2, NoQuote, Delimiter(done.delimiter + [c], false))
  {
    assert word[i..i + 2][0] == '\\' && word[i..i + 2][1] == c;
  }

  lemma Between(word: string, i: nat, c: char, s: string)
    requires At(word, i, [c] + s + [c])
    ensures word[i] == c && At(word, i + 1, s) && word[i + 1 + |s|] == c
  {
    var w := [c] + s + [c];
    var here := word[i..i + |w|];
    assert here[0] == word[i] && here[1 + |s|] == word[i + 1 + |s|];
    assert here[1..1 + |s|] == s && here[1..1 + |s|] == word[i + 1..i + 1 + |s|];
  }

  /** Quote removal gives back what the pieces of a delimiter mean, and the body expands exactly
      when every piece is bare. */
  lemma {:induction false} WrittenDelimiter(word: string, i: nat, ps: seq<Piece>, done: Delimiter)
    requires i <= |word| && word[i..] == Write(ps) && forall k :: 0 <= k < |ps| ==> IsPiece(ps[k])
    ensures Unquote(word, i, NoQuote, done) == Delimiter(done.delimiter + Meant(ps), done.expanding && AllBare(ps))
    decreases |ps|
  {
    hide WritePiece, PieceText, IsPiece;
    if ps == [] {
      assert done.delimiter + "" == done.delimiter;
    } else {
      var w, rest := WritePiece(ps[0]), Write(ps[1..]);
      assert word[i..] == w + rest;
      assert word[i..i + |w|] == w && word[i + |w|..] == rest;
      PieceRead(word, i, ps[0], done);
      var next := Delimiter(done.delimiter + PieceText(ps[0]), done.expanding && ps[0].Bare?);
      WrittenDelimiter(word, i + |w|, ps[1..], next);
      assert done.delimiter + Meant(ps) == next.delimiter + Meant(ps[1..]);
      assert AllBare(ps) <==> ps[0].Bare? && AllBare(ps[1..]);
    }
  }

  lemma DelimiterRoundTrip(ps: seq<Piece>)
    requires forall k :: 0 <= k < |ps| ==> IsPiece(ps[k])
    ensures Unquote(Write(ps), 0, NoQuote, Delimiter("", true)) == Delimiter(Meant(ps), AllBare(ps))
  {
    hide Unquote, Write, Meant;
    assert Write(ps)[0..] == Write(ps);
    WrittenDelimiter(Write(ps), 0, ps, Delimiter("", true));
    assert "" + Meant(ps) == Meant(ps);
  }
}
