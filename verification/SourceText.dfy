/** Expansions, closing quotes and continued lines told from the characters around a
    position, without a scan. */
module SourceText {
  import opened Json
  import opened ShellText
  import opened InterpreterCheck

  /** An odd number of characters `c` stands just before position `i`. */
  predicate OddBefore(s: string, i: nat, c: char)
    requires i <= |s|
  {
    exists n: nat :: n <= i && RunBefore(s, i, c, n) && n % 2 == 1
  }

  predicate RunBefore(s: string, i: nat, c: char, n: nat)
    requires n <= i <= |s|
  {
    (forall k :: i - n <= k < i ==> s[k] == c) && (n < i ==> s[i - n - 1] != c)
  }

  lemma RunOnce(s: string, i: nat, c: char)
    requires i <= |s|
    ensures forall m: nat, n: nat :: m <= i && n <= i && RunBefore(s, i, c, m) && RunBefore(s, i, c, n) ==> m == n
  {
  }

  lemma {:induction false} RunExists(s: string, i: nat, c: char) returns (n: nat)
    requires i <= |s|
    ensures n <= i && RunBefore(s, i, c, n)
  {
    if i == 0 || s[i - 1] != c {
      n := 0;
    } else {
      var m := RunExists(s, i - 1, c);
      n := m + 1;
    }
  }

  /** Behind a character other than `c` the run is empty, and behind `c` it is one longer. */
  lemma OddNext(s: string, i: nat, c: char)
    requires i < |s|
    ensures OddBefore(s, i + 1, c) <==> s[i] == c && !OddBefore(s, i, c)
  {
    var n := RunExists(s, i, c);
    RunOnce(s, i, c);
    RunOnce(s, i + 1, c);
    if s[i] == c {
      assert RunBefore(s, i + 1, c, n + 1);
      if n % 2 == 1 {
        assert OddBefore(s, i, c);
        assert (n + 1) % 2 == 0;
      } else {
        assert (n + 1) % 2 == 1;
        assert OddBefore(s, i + 1, c);
      }
    } else {
      assert RunBefore(s, i + 1, c, 0);
    }
  }

  lemma EscapedExactly(s: string, i: nat)
    requires i <= |s|
    ensures EscapedAt(s, i) <==> OddBefore(s, i, '\\')
  {
    RunOnce(s, i, '\\');
    assert RunBefore(s, i, '\\', BackslashesBefore(s, i));
  }

  // ---------- expansions ----------

  /** A back tick, or a dollar before a brace, a parenthesis, a name, a digit or one of the
      special parameters. */
  predicate StartsExpansion(s: string, i: nat)
    requires i < |s|
  {
    || s[i] == '`'
    || (s[i] == '$' && i + 1 < |s| &&
        (|| s[i + 1] in "{(_@*#?$!-"
         || 'a' <= s[i + 1] <= 'z' || 'A' <= s[i + 1] <= 'Z' || '0' <= s[i + 1] <= '9'))
  }

  /** An expansion starts at `i` that no backslash escapes.  Dollars are read in pairs from the
      left, so a dollar starts none behind an odd number of others. */
  predicate LiveAt(s: string, i: nat)
    requires i < |s|
  {
    StartsExpansion(s, i) && !OddBefore(s, i, '\\') && (s[i] == '$' ==> !OddBefore(s, i, '$'))
  }

  predicate HoldsExpansion(s: string) {
    exists i: nat :: i < |s| && LiveAt(s, i)
  }

  lemma {:induction false} LiveFrom(s: string, i: nat, found: seq<string>)
    requires i <= |s|
    requires i < |s| && s[i] == '$' ==> !OddBefore(s, i, '$')
    ensures Findings(s, i, found) != [] <==> found != [] || exists j: nat :: i <= j < |s| && LiveAt(s, j)
    decreases |s| - i
  {
    hide OddBefore, IsDigit, BackslashesBefore, RunEnd;
    if i == |s| {
    } else {
      var n := ExpansionAt(s, i);
      OddNext(s, i, '$');
      EscapedExactly(s, i);
      StartExactly(s, i);
      if n > 0 {
        Inside(s, i);
        assert LiveAt(s, i) <==> !EscapedAt(s, i);
        var more := if EscapedAt(s, i) then found else found + [s[i..i + n]];
        assert more != [] <==> found != [] || LiveAt(s, i);
        LiveFrom(s, i + n, more);
      } else {
        LiveFrom(s, i + 1, found);
      }
    }
  }

  lemma StartExactly(s: string, i: nat)
    requires i < |s|
    ensures ExpansionAt(s, i) > 0 <==> StartsExpansion(s, i)
  {
  }

  /** Nothing starts inside an expansion, and behind it dollars pair up anew. */
  lemma Inside(s: string, i: nat)
    requires i < |s| && (s[i] == '$' ==> !OddBefore(s, i, '$'))
    ensures forall j :: i < j < i + ExpansionAt(s, i) ==> !LiveAt(s, j)
    ensures var end := i + ExpansionAt(s, i); i < end < |s| && s[end] == '$' ==> !OddBefore(s, end, '$')
  {
    hide OddBefore;
    var n := ExpansionAt(s, i);
    OddNext(s, i, '$');
    if n > 1 {
      OddNext(s, i + n - 1, '$');
      assert s[i + n - 1] == '$' ==> n == 2;
    }
  }

  /** The expansions found are none exactly when none is live. */
  lemma ExpandsExactly(s: string)
    ensures Expands(s) <==> HoldsExpansion(s)
  {
    hide OddBefore;
    EmptyRun(s, '$');
    LiveFrom(s, 0, []);
  }

  // ---------- closing quotes ----------

  /** The first quote character of the line that no backslash escapes. */
  predicate FirstClose(line: string, quote: Quote, k: int) {
    && 0 <= k < |line| && Closes(quote, line[k]) && !OddBefore(line, k, '\\')
    && forall j: nat :: j < k && Closes(quote, line[j]) ==> OddBefore(line, j, '\\')
  }

  predicate NoClose(line: string, quote: Quote) {
    forall j: nat :: j < |line| && Closes(quote, line[j]) ==> OddBefore(line, j, '\\')
  }

  lemma {:induction false} CloseFrom(line: string, quote: Quote, i: nat)
    requires i <= |line| && !OddBefore(line, i, '\\')
    requires forall j: nat :: j < i && Closes(quote, line[j]) ==> OddBefore(line, j, '\\')
    ensures var k := QuoteClose(line, quote, i); if k >= 0 then FirstClose(line, quote, k) else NoClose(line, quote)
    decreases |line| - i
  {
    hide OddBefore;
    if i == |line| {
    } else {
      OddNext(line, i, '\\');
      if line[i] == '\\' {
        if i + 2 <= |line| {
          OddNext(line, i + 1, '\\');
          CloseFrom(line, quote, i + 2);
        }
      } else if !Closes(quote, line[i]) {
        CloseFrom(line, quote, i + 1);
      }
    }
  }

  lemma CloseExactly(line: string, quote: Quote)
    ensures forall k: int :: k >= 0 ==> (QuoteClose(line, quote) == k <==> FirstClose(line, quote, k))
    ensures QuoteClose(line, quote) < 0 <==> NoClose(line, quote)
  {
    hide OddBefore;
    EmptyRun(line, '\\');
    CloseFrom(line, quote, 0);
  }

  lemma EmptyRun(s: string, c: char)
    ensures !OddBefore(s, 0, c)
  {
  }

  // ---------- lines that end in a backslash ----------

  /** A backslash with nothing but spaces behind it. */
  predicate LastIsBackslash(s: string) {
    exists k :: 0 <= k < |s| && s[k] == '\\' && forall j :: k < j < |s| ==> IsSpace(s[j])
  }

  lemma BackslashExactly(s: string)
    ensures EndsInBackslash(s) <==> LastIsBackslash(s)
  {
    var t := TrimEnd(s);
    if EndsInBackslash(s) {
      assert s[|t| - 1] == '\\';
    }
    if k :| 0 <= k < |s| && s[k] == '\\' && forall j :: k < j < |s| ==> IsSpace(s[j]) {
      assert !IsSpace('\\');
      assert |t| == k + 1;
    }
  }
}
