/** Escapes, quotes and expansions in shell text. */
module ShellText {
  import opened Json

  datatype Quote = NoQuote | Single | Double

  predicate IsQuote(c: char) {
    c == '\'' || c == '"'
  }

  function QuoteOf(c: char): (q: Quote)
    requires IsQuote(c)
    ensures q != NoQuote && Closes(q, c)
  {
    if c == '\'' then Single else Double
  }

  predicate Closes(q: Quote, c: char) {
    (q == Single && c == '\'') || (q == Double && c == '"')
  }

  predicate StartsWith(text: string, prefix: string, from: nat) {
    from + |prefix| <= |text| && text[from..from + |prefix|] == prefix
  }

  lemma StartsAt(text: string, prefix: string, from: nat, k: nat)
    requires k < |prefix|
    ensures StartsWith(text, prefix, from) ==> from + k < |text| && text[from + k] == prefix[k]
  {
    if StartsWith(text, prefix, from) {
      assert text[from..from + |prefix|][k] == text[from + k];
    }
  }

  /** `text.indexOf(pattern, from)`. */
  function IndexOf(text: string, pattern: string, from: nat): (i: int)
    ensures i == -1 || (from <= i && StartsWith(text, pattern, i))
    ensures forall k :: from <= k && (i == -1 || k < i) ==> !StartsWith(text, pattern, k)
    decreases if from <= |text| then |text| - from + 1 else 0
  {
    if from > |text| then -1
    else if StartsWith(text, pattern, from) then from
    else IndexOf(text, pattern, from + 1)
  }

  predicate IsLetter(c: char) {
    'a' <= c <= 'z' || 'A' <= c <= 'Z'
  }

  predicate IsNameStart(c: char) {
    IsLetter(c) || c == '_'
  }

  predicate IsNamePart(c: char) {
    IsNameStart(c) || IsDigit(c)
  }

  function SkipSpaces(text: string, from: nat): (end: nat)
    requires from <= |text|
    ensures from <= end <= |text|
  {
    RunEnd(text, from, IsSpace)
  }

  // ---------- expansions ----------

  /** How many characters of an expansion start at `i`; 0 when none does. */
  function ExpansionAt(s: string, i: nat): (n: nat)
    requires i < |s|
    ensures i + n <= |s|
  {
    if s[i] == '`' then 1
    else if s[i] != '$' || i + 1 == |s| then 0
    else if s[i + 1] == '{' || s[i + 1] == '(' then 2
    else if IsNameStart(s[i + 1]) then RunEnd(s, i + 1, IsNamePart) - i
    else if IsDigit(s[i + 1]) then 2
    else if s[i + 1] in "@*#?$!-" then 2
    else 0
  }

  /** The length of the run of backslashes that ends just before `i`. */
  function BackslashesBefore(s: string, i: nat): (n: nat)
    requires i <= |s|
    ensures n <= i
    ensures forall k :: i - n <= k < i ==> s[k] == '\\'
    ensures n < i ==> s[i - n - 1] != '\\'
  {
    if i > 0 && s[i - 1] == '\\' then 1 + BackslashesBefore(s, i - 1) else 0
  }

  predicate EscapedAt(s: string, i: nat)
    requires i <= |s|
  {
    BackslashesBefore(s, i) % 2 == 1
  }

  /** The expansions that no backslash escapes, from left to right, after those found before
      position `i`. */
  function Findings(s: string, i: nat := 0, found: seq<string> := []): seq<string>
    requires i <= |s|
    decreases |s| - i
  {
    if i == |s| then found
    else
      var n := ExpansionAt(s, i);
      if n == 0 then Findings(s, i + 1, found)
      else if EscapedAt(s, i) then Findings(s, i + n, found)
      else Findings(s, i + n, found + [s[i..i + n]])
  }

  method CountBackslashes(s: string, i: nat) returns (n: nat)
    requires i <= |s|
    ensures n == BackslashesBefore(s, i)
  {
    n := 0;
    var k: nat := i;
    while k > 0 && s[k - 1] == '\\'
      invariant k <= i && n + BackslashesBefore(s, k) == BackslashesBefore(s, i)
    {
      k, n := k - 1, n + 1;
    }
  }

  method FindingsIn(s: string) returns (found: seq<string>)
    ensures found == Findings(s)
  {
    found := [];
    var i := 0;
    while i < |s|
      invariant i <= |s|
      invariant Findings(s, i, found) == Findings(s)
    {
      hide ExpansionAt, BackslashesBefore;
      var n := ExpansionAt(s, i);
      if n == 0 {
        i := i + 1;
      } else {
        var backslashes := CountBackslashes(s, i);
        if backslashes % 2 == 0 {
          found := found + [s[i..i + n]];
        }
        i := i + n;
      }
    }
  }

  // ---------- line continuation ----------

  /** The quote in force after the scan that takes each backslash together with the
      character after it, from position `i`. */
  function QuoteAtEnd(s: string, i: nat, q: Quote): Quote
    requires i <= |s|
    decreases |s| - i
  {
    if i == |s| then q
    else if q == NoQuote && IsQuote(s[i]) then QuoteAtEnd(s, i + 1, QuoteOf(s[i]))
    else if Closes(q, s[i]) then QuoteAtEnd(s, i + 1, NoQuote)
    else if s[i] == '\\' && i + 1 < |s| then QuoteAtEnd(s, i + 2, q)
    else QuoteAtEnd(s, i + 1, q)
  }

  /** A line continues when an odd run of backslashes ends it outside single quotes. */
  predicate Continues(line: string): (c: bool)
    ensures c ==> line != "" && line[|line| - 1] == '\\'
  {
    EscapedAt(line, |line|) && QuoteAtEnd(line, 0, NoQuote) != Single
  }

  /** The scan by pairs and the count of the terminal run agree. */
  method ContinuesShellLine(line: string) returns (continues: bool)
    ensures continues <==> Continues(line)
  {
    var quote := NoQuote;
    var index := 0;
    while index < |line|
      invariant index <= |line|
      invariant QuoteAtEnd(line, index, quote) == QuoteAtEnd(line, 0, NoQuote)
      invariant !EscapedAt(line, index)
    {
      var c := line[index];
      if quote == NoQuote && IsQuote(c) {
        quote := QuoteOf(c);
        index := index + 1;
        continue;
      }
      if Closes(quote, c) {
        quote := NoQuote;
        index := index + 1;
        continue;
      }
      if c == '\\' {
        if index == |line| - 1 {
          return quote != Single;
        }
        index := index + 1;
      }
      index := index + 1;
    }
    return false;
  }
}
