/** A diff written file by file is read file by file. */
module DiffFiles {
  import opened Json
  import opened ShellText
  import opened GitPaths
  import opened DiffProjection

  // ---------- the header of a chunk ----------

  predicate HasNoLineEnd(s: string) {
    forall k :: 0 <= k < |s| ==> s[k] !in "\n\r\U{2028}\U{2029}"
  }

  predicate EndsLine(rest: string) {
    rest == "" || rest[0] in "\n\r\U{2028}\U{2029}"
  }

  /** The chunk opens with `header` on its first line, and has no header inside. */
  predicate OpensWith(content: string, header: string, rest: string) {
    && content == "diff --git " + header + rest
    && header != "" && HasNoLineEnd(header) && EndsLine(rest)
  }

  lemma NoLineEndBehind(s: string)
    requires s != "" && HasNoLineEnd(s)
    ensures HasNoLineEnd(s[1..])
  {
  }

  lemma {:induction false} StopsAtRest(text: string, i: nat, end: nat)
    requires i <= end <= |text| && HasNoLineEnd(text[i..end]) && EndsLine(text[end..])
    ensures LineStop(text, i) == end
    decreases end - i
  {
    if i == end {
    } else {
      assert text[i..end][0] == text[i] && text[i..end][1..] == text[i + 1..end];
      NoLineEndBehind(text[i..end]);
      StopsAtRest(text, i + 1, end);
    }
  }

  lemma {:induction false} LineStopExactly(text: string, i: nat)
    requires i <= |text|
    ensures HasNoLineEnd(text[i..LineStop(text, i)]) && EndsLine(text[LineStop(text, i)..])
    decreases |text| - i
  {
    if i == |text| || IsLineEnd(text[i]) {
    } else {
      var end := LineStop(text, i);
      LineStopExactly(text, i + 1);
      assert text[i..end] == [text[i]] + text[i + 1..end];
    }
  }

  /** What a chunk's header is: the rest of its first line, when that is not empty. */
  lemma HeaderExactly(content: string, header: string)
    requires HeaderAt(content, 0) && forall q :: 0 < q < |content| ==> !HeaderAt(content, q)
    ensures HeaderOf(content) == Some(header) <==> exists rest :: OpensWith(content, header, rest)
  {
    hide HeaderAt, HeaderOf, LineStop, HasNoLineEnd, EndsLine;
    var n := |PREFIX|;
    PrefixAhead(content);
    HeaderOfFirstLine(content);
    var end := LineStop(content, n);
    LineStopExactly(content, n);
    if end > n {
      assert content == "diff --git " + content[n..end] + content[end..];
      assert OpensWith(content, content[n..end], content[end..]);
    }
    if rest :| OpensWith(content, header, rest) {
      assert content[n..n + |header|] == header && content[n + |header|..] == rest;
      StopsAtRest(content, n, n + |header|);
    }
  }

  lemma HeaderOfFirstLine(content: string)
    requires HeaderAt(content, 0) && forall q :: 0 < q < |content| ==> !HeaderAt(content, q)
    requires |PREFIX| <= |content|
    ensures var n, end := |PREFIX|, LineStop(content, |PREFIX|);
            HeaderOf(content) == if end > n then Some(content[n..end]) else None
  {
    hide HeaderAt, LineStop;
    NoHeader(content, 1);
  }

  lemma PrefixAhead(content: string)
    requires HeaderAt(content, 0)
    ensures |PREFIX| <= |content| && content[..|PREFIX|] == "diff --git "
  {
    assert content[0..|PREFIX|] == PREFIX;
  }

  // ---------- diffs written file by file ----------

  /** One file of a diff: its names, each quoted or bare, and what follows the header. */
  datatype Written = Written(old_: string, oldQuoted: bool, new_: string, newQuoted: bool, body: string) {
    function Header(): string {
      HeaderFor(old_, oldQuoted, new_, newQuoted)
    }

    function Text(): string {
      "diff --git " + Header() + body
    }
  }

  /** A header of one of the forms that are read, on a line of its own. */
  predicate IsReadable(w: Written) {
    && HasNoLineEnd(w.Header()) && EndsLine(w.body)
    && w.oldQuoted == w.newQuoted
    && (!w.newQuoted ==> w.new_ != "" && forall k :: 0 <= k < |w.new_| ==> !SeparatesAt(w.new_, k))
    && forall q :: 0 < q < |w.Text()| ==> !HeaderAt(w.Text(), q)
  }

  /** The file ends its last line, so that another may follow. */
  predicate IsEnded(w: Written) {
    w.body != "" && w.body[|w.body| - 1] in "\n\r\U{2028}\U{2029}"
  }

  function Texts(ws: seq<Written>): (ts: seq<string>)
    ensures |ts| == |ws| && forall i :: 0 <= i < |ws| ==> ts[i] == ws[i].Text()
  {
    seq(|ws|, i requires 0 <= i < |ws| => ws[i].Text())
  }

  function Files(ws: seq<Written>): (fs: seq<DiffFile>)
    ensures |fs| == |ws| && forall i :: 0 <= i < |ws| ==> fs[i] == DiffFile(Utf8Text(ws[i].new_), ws[i].Text())
  {
    seq(|ws|, i requires 0 <= i < |ws| => DiffFile(Utf8Text(ws[i].new_), ws[i].Text()))
  }

  predicate AreWritten(ws: seq<Written>) {
    && (forall i :: 0 <= i < |ws| ==> IsReadable(ws[i]))
    && (forall i :: 0 <= i < |ws| - 1 ==> IsEnded(ws[i]))
  }

  lemma TextOpens(w: Written)
    ensures HeaderAt(w.Text(), 0) && |w.Text()| >= |PREFIX|
  {
    hide HeaderFor;
    assert w.Text()[0..|PREFIX|] == PREFIX;
  }

  lemma WrittenRead(w: Written)
    requires IsReadable(w)
    ensures FileOf(w.Text()) == Some(DiffFile(Utf8Text(w.new_), w.Text()))
  {
    hide HeaderFor, HeaderOf, PathOf, HeaderAt, SeparatesAt, Utf8Text;
    TextOpens(w);
    NewNameExactly(w.old_, w.oldQuoted, w.new_, w.newQuoted);
    HeaderIsNotEmpty(w);
    assert OpensWith(w.Text(), w.Header(), w.body);
    HeaderExactly(w.Text(), w.Header());
  }

  lemma HeaderIsNotEmpty(w: Written)
    ensures w.Header() != ""
  {
    hide Side;
  }

  /** A header behind an ended text is a header of what follows, and none reaches across. */
  lemma HeadersApart(first: string, rest: string, q: nat)
    requires first != "" && first[|first| - 1] in "\n\r\U{2028}\U{2029}" && 0 < q < |first|
    ensures HeaderAt(first + rest, q) ==> HeaderAt(first, q)
  {
    var text, n := first + rest, |PREFIX|;
    if HeaderAt(text, q) {
      if q + n > |first| - 1 {
        StartsAt(text, PREFIX, q, |first| - 1 - q);
      }
      assert text[q..q + n] == first[q..q + n];
    }
  }

  lemma NextIs(text: string, i: nat, j: nat)
    requires i <= j <= |text| && (j == |text| || HeaderAt(text, j)) && forall q :: i <= q < j ==> !HeaderAt(text, q)
    ensures NextHeader(text, i) == j
  {
    hide HeaderAt;
  }

  lemma FirstChunk(w: Written, rest: string)
    requires IsReadable(w)
    requires rest == "" || (IsEnded(w) && HeaderAt(rest, 0))
    ensures Chunks(w.Text() + rest) == [w.Text()] + Chunks(rest)
  {
    hide HeaderAt, HeaderFor;
    var first := w.Text();
    var text := first + rest;
    TextOpens(w);
    if rest == "" {
      assert text == first;
      NextIs(text, 1, |text|);
    } else {
      assert first[|first| - 1] == w.body[|w.body| - 1];
      forall q | 1 <= q < |first|
        ensures !HeaderAt(text, q)
      {
        HeadersApart(first, rest, q);
      }
      FollowingHeader(first, rest);
      NextIs(text, 1, |first|);
    }
    assert text[..|first|] == first && text[|first|..] == rest;
  }

  lemma FollowingHeader(first: string, rest: string)
    requires first != "" && first[|first| - 1] in "\n\r\U{2028}\U{2029}" && HeaderAt(rest, 0)
    ensures HeaderAt(first + rest, |first|) && rest != ""
  {
    var n := |PREFIX|;
    assert rest[0..n] == PREFIX;
    assert (first + rest)[|first|..|first| + n] == rest[0..n];
  }

  lemma {:induction false} WrittenCut(ws: seq<Written>)
    requires AreWritten(ws)
    ensures Chunks(Concat(Texts(ws))) == Texts(ws)
    ensures ws != [] ==> HeaderAt(Concat(Texts(ws)), 0)
  {
    hide HeaderAt, HeaderFor, Chunks, IsReadable;
    if ws == [] {
      NothingToCut();
    } else {
      var rest := ws[1..];
      WrittenCut(rest);
      assert Texts(ws) == [ws[0].Text()] + Texts(rest);
      ConcatOne(ws[0].Text(), Texts(rest));
      if rest == [] {
        assert Concat(Texts(rest)) == "";
      }
      FirstChunk(ws[0], Concat(Texts(rest)));
      TextOpens(ws[0]);
      OpensLonger(ws[0].Text(), Concat(Texts(rest)));
    }
  }

  lemma NothingToCut()
    ensures Chunks("") == []
  {
  }

  lemma OpensLonger(first: string, rest: string)
    requires HeaderAt(first, 0)
    ensures HeaderAt(first + rest, 0)
  {
    var n := |PREFIX|;
    assert (first + rest)[0..n] == first[0..n];
  }

  /** A diff of files with headers of the readable forms is split into those files, each with
      its new name and its own text. */
  lemma WrittenSplit(ws: seq<Written>)
    requires AreWritten(ws)
    ensures ParseList(FileOf, Chunks(Concat(Texts(ws)))) == Some(Files(ws))
  {
    hide FileOf, Chunks, IsReadable, HeaderFor, Utf8Text;
    WrittenCut(ws);
    forall i | 0 <= i < |ws|
      ensures FileOf(Texts(ws)[i]) == Some(Files(ws)[i])
    {
      WrittenRead(ws[i]);
    }
    ParseListPointwise(FileOf, Texts(ws), Files(ws));
  }

  // ---------- what is taken ----------

  /** The bytes of the chosen chunks among the first `n`. */
  function ChosenBytes(files: seq<DiffFile>, chosen: seq<bool>, n: nat): nat
    requires n <= |files| == |chosen|
  {
    if n == 0 then 0
    else ChosenBytes(files, chosen, n - 1) + if chosen[n - 1] then |Utf8Text(files[n - 1].content)| else 0
  }

  /** Chunk by chunk, one is chosen exactly when it is within the limit of a file and, together
      with those chosen before it, within the limit of all. */
  predicate ChosenInTurn(files: seq<DiffFile>, limits: Limits, chosen: seq<bool>) {
    && |chosen| == |files|
    && forall i :: 0 <= i < |files| ==>
         (chosen[i] <==>
            && |Utf8Text(files[i].content)| <= limits.perFile
            && ChosenBytes(files, chosen, i) + |Utf8Text(files[i].content)| <= limits.total)
  }

  lemma {:induction false} ChosenAlike(files: seq<DiffFile>, limits: Limits, chosen: seq<bool>, n: nat)
    requires ChosenInTurn(files, limits, chosen) && n <= |files|
    ensures ChosenBytes(files, chosen, n) == Included(files, limits, n)
    ensures forall i :: 0 <= i < n ==> (chosen[i] <==> Fits(files, limits, i))
  {
    hide Utf8Text;
    if n == 0 {
    } else {
      ChosenAlike(files, limits, chosen, n - 1);
    }
  }

  /** The chunks `chosen` turn by turn, and only they, are taken; all others are named, in
      their order, each with its path and the hash of its text. */
  lemma TakenExactly(files: seq<DiffFile>, limits: Limits, digest: string -> string, chosen: seq<bool>) returns (at: seq<nat>)
    requires ChosenInTurn(files, limits, chosen)
    ensures forall i :: 0 <= i < |files| ==> (Fits(files, limits, i) <==> chosen[i])
    ensures AreNamed(files, chosen, digest, Omitted(files, limits, digest, |files|), at)
  {
    hide Fits, AreNamed;
    ChosenAlike(files, limits, chosen, |files|);
    at := Named(files, limits, digest, chosen, |files|);
    assert chosen[..|files|] == chosen;
  }

  /** The chunks among the first `n` that are not chosen stand at the places `at`. */
  predicate AreNamed(files: seq<DiffFile>, chosen: seq<bool>, digest: string -> string, omitted: seq<OmittedFile>, at: seq<nat>) {
    && |omitted| == |at|
    && PicksAt(chosen, seq(|at|, _ => false), IsLeftOut, at)
    && forall k :: 0 <= k < |at| ==> at[k] < |files| && omitted[k] == OmittedFile(files[at[k]].path, digest(files[at[k]].content))
  }

  predicate IsLeftOut(chosen: bool) {
    !chosen
  }

  lemma {:induction false} Named(files: seq<DiffFile>, limits: Limits, digest: string -> string, chosen: seq<bool>, n: nat)
    returns (at: seq<nat>)
    requires n <= |files| == |chosen|
    requires forall i :: 0 <= i < |files| ==> (Fits(files, limits, i) <==> chosen[i])
    ensures AreNamed(files, chosen[..n], digest, Omitted(files, limits, digest, n), at)
  {
    hide Fits, PicksAt;
    if n == 0 {
      at := [];
      NothingLeftOut();
    } else {
      var before := Named(files, limits, digest, chosen, n - 1);
      PickOneMore(chosen[..n - 1], seq(|before|, _ => false), IsLeftOut, before, chosen[n - 1]);
      assert chosen[..n] == chosen[..n - 1] + [chosen[n - 1]];
      if chosen[n - 1] {
        at := before;
      } else {
        at := before + [n - 1];
        assert seq(|before|, _ => false) + [false] == seq(|at|, _ => false);
      }
    }
  }

  lemma NothingLeftOut()
    ensures PicksAt([], seq(0, _ => false), IsLeftOut, [])
  {
  }

  predicate IsLine(line: string) {
    line != ""
  }

  lemma {:induction false} LinesExactly(all: seq<string>) returns (at: seq<nat>)
    ensures PicksAt(all, FlatMap(UnlessEmpty, all), IsLine, at)
  {
    hide PicksAt;
    if all == [] {
      at := [];
      NoLines();
    } else {
      var n := |all| - 1;
      var before := LinesExactly(all[..n]);
      assert all == all[..n] + [all[n]];
      FlatMapAppend(UnlessEmpty, all[..n], [all[n]]);
      OneLine(all[n]);
      assert FlatMap(UnlessEmpty, all[..n]) + [] == FlatMap(UnlessEmpty, all[..n]);
      PickOneMore(all[..n], FlatMap(UnlessEmpty, all[..n]), IsLine, before, all[n]);
      at := if all[n] == "" then before else before + [n];
    }
  }

  lemma NoLines()
    ensures PicksAt([], [], IsLine, [])
  {
  }

  lemma OneLine(line: string)
    ensures FlatMap(UnlessEmpty, [line]) == if line == "" then [] else [line]
  {
    assert FlatMap(UnlessEmpty, [line]) == UnlessEmpty(line) + FlatMap(UnlessEmpty, []);
  }

  /** The projected lines of a taken chunk are its lines that are not empty, in their order. */
  lemma HunkLines(content: string) returns (at: seq<nat>)
    ensures PicksAt(Split(content, '\n'), NonEmptyLines(content), IsLine, at)
  {
    at := LinesExactly(Split(content, '\n'));
  }
}
