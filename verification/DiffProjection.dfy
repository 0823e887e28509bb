/** The bounded diff of the as-built review's input: the diff is cut at its file headers,
    and each file's chunk is either taken whole or left out and named. */
module DiffProjection {
  import opened Json
  import opened FindingIds
  import opened ShellText
  import opened GitPaths

  datatype Limits = Limits(perFile: nat, total: nat)

  datatype DiffFile = DiffFile(path: seq<Octet>, content: string)

  datatype OmittedFile = OmittedFile(path: seq<Octet>, digest: string)

  datatype Projection = Projection(hunks: seq<string>, omitted: seq<OmittedFile>)

  // ---------- cutting the diff at its file headers ----------

  const PREFIX := "diff --git "

  predicate HeaderAt(text: string, i: nat) {
    StartsWith(text, PREFIX, i) && (i == 0 || IsLineEnd(text[i - 1]))
  }

  /** The first header at or behind `i`, or the end of the text. */
  function NextHeader(text: string, i: nat): (j: nat)
    requires i <= |text|
    ensures i <= j <= |text| && (j == |text| || HeaderAt(text, j))
    ensures forall k :: i <= k < j ==> !HeaderAt(text, k)
    decreases |text| - i
  {
    if i == |text| || HeaderAt(text, i) then i else NextHeader(text, i + 1)
  }

  /** `text.split(/(?=^diff --git )/m).filter(Boolean)`. */
  function Chunks(text: string): seq<string> {
    if text == "" then []
    else
      var j := NextHeader(text, 1);
      [text[..j]] + Chunks(text[j..])
  }

  lemma ConcatOne(first: string, rest: seq<string>)
    ensures Concat([first] + rest) == first + Concat(rest)
  {
    ConcatSplit([first], rest);
    assert [first][..0] == [];
  }

  lemma HeaderInside(text: string, j: nat, q: nat)
    requires 0 < q < j <= |text| && HeaderAt(text[..j], q)
    ensures HeaderAt(text, q)
  {
    assert text[..j][q..q + |PREFIX|] == text[q..q + |PREFIX|];
  }

  /** A line terminator never stands inside the words that open a header. */
  lemma HeaderApart(text: string, q: nat)
    requires HeaderAt(text, 0) && 0 < q && HeaderAt(text, q)
    ensures q > |PREFIX|
  {
    if q <= |PREFIX| {
      StartsAt(text, PREFIX, 0, q - 1);
    }
  }

  /** Cutting loses nothing and cuts at every header and nowhere else: the chunks put
      together are the diff, no chunk is empty, every chunk but the first starts with a
      header, and no chunk has a header inside. */
  lemma {:induction false} ChunksExactly(text: string)
    ensures Concat(Chunks(text)) == text
    ensures forall k :: 0 <= k < |Chunks(text)| ==>
              Chunks(text)[k] != "" && forall q :: 0 < q < |Chunks(text)[k]| ==> !HeaderAt(Chunks(text)[k], q)
    ensures forall k :: 0 <= k < |Chunks(text)| && (k > 0 || HeaderAt(text, 0)) ==> HeaderAt(Chunks(text)[k], 0)
  {
    hide HeaderAt;
    if text == "" {
    } else {
      var j := NextHeader(text, 1);
      var first := text[..j];
      ChunksExactly(text[j..]);
      ConcatOne(first, Chunks(text[j..]));
      forall q | 0 < q < |first|
        ensures !HeaderAt(first, q)
      {
        if HeaderAt(first, q) {
          HeaderInside(text, j, q);
        }
      }
      HeaderOfFirst(text, j);
    }
  }

  /** The header that ends a chunk starts the next one, and a chunk keeps its own. */
  lemma HeaderOfFirst(text: string, j: nat)
    requires 0 < j <= |text| && (j == |text| || HeaderAt(text, j))
    ensures HeaderAt(text, 0) <==> HeaderAt(text[..j], 0)
    ensures j < |text| ==> HeaderAt(text[j..], 0)
  {
    hide IsLineEnd;
    var n := |PREFIX|;
    if HeaderAt(text, 0) && j < |text| {
      HeaderApart(text, j);
    }
    if j >= n {
      assert text[..j][0..n] == text[0..n];
    }
    if j < |text| {
      assert text[j..][0..n] == text[j..j + n];
    }
  }

  // ---------- the files ----------

  function LineStop(text: string, i: nat): (j: nat)
    requires i <= |text|
    ensures i <= j <= |text|
    decreases |text| - i
  {
    if i == |text| || IsLineEnd(text[i]) then i else LineStop(text, i + 1)
  }

  /** The first match of `/^diff --git (.+)$/m`, without its prefix. */
  function HeaderOf(content: string, i: nat := 0): Option<string>
    requires i <= |content|
    decreases |content| - i
  {
    var from := i + |PREFIX|;
    if i == |content| then None
    else if HeaderAt(content, i) && LineStop(content, from) > from then Some(content[from..LineStop(content, from)])
    else HeaderOf(content, i + 1)
  }

  function FileOf(content: string): Option<DiffFile> {
    var header := HeaderOf(content);
    if header.None? || PathOf(header.value).None? then None else Some(DiffFile(PathOf(header.value).value, content))
  }

  /** The files of a diff, or nothing when one chunk's path cannot be read. */
  method SplitDiffByFile(text: string) returns (files: Option<seq<DiffFile>>)
    ensures files == ParseList(FileOf, Chunks(text))
  {
    hide FileOf, Chunks;
    var chunks := Chunks(text);
    var read: seq<DiffFile> := [];
    for i := 0 to |chunks|
      invariant ParseList(FileOf, chunks[..i]) == Some(read)
    {
      var file := FileOf(chunks[i]);
      if file.None? {
        var whole := ParseList(FileOf, chunks);
        if whole.Some? {
          ParseListPointwise(FileOf, chunks, whole.value);
        }
        return None;
      }
      read := read + [file.value];
      assert chunks[..i + 1][..i] == chunks[..i];
    }
    assert chunks[..|chunks|] == chunks;
    return Some(read);
  }

  // ---------- taking chunks within the limits ----------

  function Bytes(s: string): nat {
    |Utf8Text(s)|
  }

  /** The bytes of the chunks taken among the first `n`. */
  function Included(files: seq<DiffFile>, limits: Limits, n: nat): nat
    requires n <= |files|
    decreases n, 0
  {
    if n == 0 then 0
    else Included(files, limits, n - 1) + (if Fits(files, limits, n - 1) then Bytes(files[n - 1].content) else 0)
  }

  /** Whether chunk `i` is taken when its turn comes. */
  predicate Fits(files: seq<DiffFile>, limits: Limits, i: nat)
    requires i < |files|
    decreases i, 1
  {
    && Bytes(files[i].content) <= limits.perFile
    && Included(files, limits, i) + Bytes(files[i].content) <= limits.total
  }

  function UnlessEmpty(line: string): seq<string> {
    if line == "" then [] else [line]
  }

  /** `content.split('\n').filter(Boolean)`. */
  function NonEmptyLines(content: string): seq<string> {
    FlatMap(UnlessEmpty, Split(content, '\n'))
  }

  function Hunks(files: seq<DiffFile>, limits: Limits, n: nat): seq<string>
    requires n <= |files|
  {
    if n == 0 then []
    else if Fits(files, limits, n - 1) then Hunks(files, limits, n - 1) + NonEmptyLines(files[n - 1].content)
    else Hunks(files, limits, n - 1)
  }

  function Omitted(files: seq<DiffFile>, limits: Limits, digest: string -> string, n: nat): seq<OmittedFile>
    requires n <= |files|
  {
    if n == 0 then []
    else Omitted(files, limits, digest, n - 1)
         + (if Fits(files, limits, n - 1) then [] else [OmittedFile(files[n - 1].path, digest(files[n - 1].content))])
  }

  /** The projection of a diff; `digest` is the hash that names an omitted chunk. */
  method ProjectDiff(text: string, limits: Limits, digest: string -> string) returns (r: Option<Projection>)
    ensures r.None? <==> ParseList(FileOf, Chunks(text)).None?
    ensures r.Some? ==>
              var files := ParseList(FileOf, Chunks(text)).value;
              r.value == Projection(Hunks(files, limits, |files|), Omitted(files, limits, digest, |files|))
  {
    hide FileOf, Chunks, Utf8Text, NonEmptyLines;
    var split := SplitDiffByFile(text);
    if split.None? {
      return None;
    }
    var files := split.value;
    var included := 0;
    var hunks: seq<string> := [];
    var omitted: seq<OmittedFile> := [];
    for i := 0 to |files|
      invariant included == Included(files, limits, i)
      invariant hunks == Hunks(files, limits, i)
      invariant omitted == Omitted(files, limits, digest, i)
    {
      var bytes := Bytes(files[i].content);
      if bytes > limits.perFile || included + bytes > limits.total {
        omitted := omitted + [OmittedFile(files[i].path, digest(files[i].content))];
        continue;
      }
      included := included + bytes;
      hunks := hunks + NonEmptyLines(files[i].content);
    }
    return Some(Projection(hunks, omitted));
  }

  // ---------- conservation ----------

  function OmittedBytes(files: seq<DiffFile>, limits: Limits, n: nat): nat
    requires n <= |files|
  {
    if n == 0 then 0
    else OmittedBytes(files, limits, n - 1) + (if Fits(files, limits, n - 1) then 0 else Bytes(files[n - 1].content))
  }

  function Contents(files: seq<DiffFile>): (cs: seq<string>)
    ensures |cs| == |files| && forall i :: 0 <= i < |files| ==> cs[i] == files[i].content
  {
    seq(|files|, i requires 0 <= i < |files| => files[i].content)
  }

  lemma {:induction false} BytesAdd(files: seq<DiffFile>, limits: Limits, n: nat)
    requires n <= |files|
    ensures Included(files, limits, n) + OmittedBytes(files, limits, n) == Bytes(Concat(Contents(files)[..n]))
    ensures Included(files, limits, n) <= limits.total
    decreases n
  {
    var cs := Contents(files);
    if n == 0 {
      assert cs[..0] == [];
    } else {
      BytesAdd(files, limits, n - 1);
      assert cs[..n][..n - 1] == cs[..n - 1];
      FlatMapAppend(Utf8, Concat(cs[..n - 1]), cs[n - 1]);
    }
  }

  /** The chunks are the diff, every byte of it is either included or omitted, and the
      included ones never exceed the limit. */
  lemma NothingLost(text: string, limits: Limits, files: seq<DiffFile>)
    requires ParseList(FileOf, Chunks(text)) == Some(files)
    ensures Concat(Contents(files)) == text
    ensures Included(files, limits, |files|) + OmittedBytes(files, limits, |files|) == Bytes(text)
    ensures Included(files, limits, |files|) <= limits.total
  {
    hide FileOf, Chunks;
    ParseListPointwise(FileOf, Chunks(text), files);
    forall i | 0 <= i < |files|
      ensures files[i].content == Chunks(text)[i]
    {
      ContentKept(Chunks(text)[i]);
    }
    assert Contents(files) == Chunks(text);
    ChunksExactly(text);
    assert Contents(files)[..|files|] == Contents(files);
    BytesAdd(files, limits, |files|);
  }

  lemma ContentKept(content: string)
    ensures FileOf(content).Some? ==> FileOf(content).value.content == content
  {
    hide HeaderOf, PathOf;
  }

  lemma {:induction false} IncludedGrows(files: seq<DiffFile>, limits: Limits, i: nat, n: nat)
    requires i <= n <= |files|
    ensures Included(files, limits, i) <= Included(files, limits, n)
    decreases n
  {
    if i >= n {
    } else {
      IncludedGrows(files, limits, i, n - 1);
    }
  }

  /** Nothing is left out needlessly: an omitted chunk is over the per-file limit or would not
      even fit behind everything that was taken in the end. */
  lemma OmittedForGood(files: seq<DiffFile>, limits: Limits, i: nat)
    requires i < |files| && !Fits(files, limits, i)
    ensures Bytes(files[i].content) > limits.perFile
         || Included(files, limits, |files|) + Bytes(files[i].content) > limits.total
  {
    IncludedGrows(files, limits, i, |files|);
  }

  // ---------- the lines of the hunks ----------

  function UnlessBreak(c: char): string {
    if c == '\n' then "" else [c]
  }

  /** `s` without its line feeds. */
  function WithoutBreaks(s: string): string {
    FlatMap(UnlessBreak, s)
  }

  lemma {:induction false} NonEmptyConcat(lines: seq<string>)
    ensures Concat(FlatMap(UnlessEmpty, lines)) == Concat(lines)
  {
    if lines == [] {
    } else {
      var rest := lines[1..];
      NonEmptyConcat(rest);
      assert lines == [lines[0]] + rest;
      ConcatOne(lines[0], rest);
      if lines[0] == "" {
        assert FlatMap(UnlessEmpty, lines) == [] + FlatMap(UnlessEmpty, rest) == FlatMap(UnlessEmpty, rest);
      } else {
        ConcatOne(lines[0], FlatMap(UnlessEmpty, rest));
      }
    }
  }

  lemma {:induction false} SplitConcat(s: string)
    ensures Concat(Split(s, '\n')) == WithoutBreaks(s)
  {
    if s == "" {
      assert [""][..0] == [];
    } else {
      SplitConcat(s[1..]);
      var rest := Split(s[1..], '\n');
      assert rest == [rest[0]] + rest[1..];
      ConcatOne(rest[0], rest[1..]);
      if s[0] == '\n' {
        ConcatOne("", rest);
      } else {
        ConcatOne([s[0]] + rest[0], rest[1..]);
      }
    }
  }

  /** The texts of the taken chunks, one behind the other. */
  function Taken(files: seq<DiffFile>, limits: Limits, n: nat): string
    requires n <= |files|
  {
    if n == 0 then ""
    else if Fits(files, limits, n - 1) then Taken(files, limits, n - 1) + files[n - 1].content
    else Taken(files, limits, n - 1)
  }

  /** The projected lines hold the taken chunks character by character, line feeds apart. */
  lemma {:induction false} HunksAreTaken(files: seq<DiffFile>, limits: Limits, n: nat)
    requires n <= |files|
    ensures Concat(Hunks(files, limits, n)) == WithoutBreaks(Taken(files, limits, n))
    decreases n
  {
    hide Split, UnlessBreak, UnlessEmpty, Utf8Text;
    if n == 0 {
    } else {
      HunksAreTaken(files, limits, n - 1);
      var content := files[n - 1].content;
      if Fits(files, limits, n - 1) {
        ConcatSplit(Hunks(files, limits, n - 1), NonEmptyLines(content));
        NonEmptyConcat(Split(content, '\n'));
        SplitConcat(content);
        FlatMapAppend(UnlessBreak, Taken(files, limits, n - 1), content);
      }
    }
  }

  /** Anything in front of the first header makes the whole diff unreadable. */
  lemma PreambleRefused(text: string)
    requires text != "" && !HeaderAt(text, 0)
    ensures ParseList(FileOf, Chunks(text)).None?
  {
    hide FileOf, ParseList, HeaderAt;
    var first := Chunks(text)[0];
    ChunksExactly(text);
    var j := NextHeader(text, 1);
    HeaderOfFirst(text, j);
    NoHeader(first, 0);
    NoFile(first);
    var whole := ParseList(FileOf, Chunks(text));
    if whole.Some? {
      ParseListPointwise(FileOf, Chunks(text), whole.value);
    }
  }

  lemma NoFile(content: string)
    requires HeaderOf(content).None?
    ensures FileOf(content).None?
  {
    hide HeaderOf, PathOf;
  }

  lemma {:induction false} NoHeader(content: string, i: nat)
    requires i <= |content| && forall q :: i <= q < |content| ==> !HeaderAt(content, q)
    ensures HeaderOf(content, i).None?
    decreases |content| - i
  {
    hide HeaderAt;
    if i >= |content| {
    } else {
      NoHeader(content, i + 1);
    }
  }
}
