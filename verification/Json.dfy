/** Values shared by every module: optional values, parsed JSON documents, and the
    whitespace, lines and pieces of JavaScript strings. */
module Json {

  datatype Option<+T> = None | Some(value: T)

  /** A parsed JSON document.  `K` is the enumeration of field names one reader knows,
      with a constructor for every other name. */
  datatype Json<K> =
    | Null
    | Bool(b: bool)
    | Num(n: real)
    | Str(s: string)
    | Arr(items: seq<Json<K>>)
    | Obj(fields: map<K, Json<K>>)

  /** `Number.isInteger` on a finite number. */
  predicate IsInteger(n: real) {
    n == n.Floor as real
  }

  /** The whitespace that `String.prototype.trim` removes and `\s` matches. */
  predicate IsSpace(c: char) {
    || '\U{0009}' <= c <= '\U{000D}'
    || c == '\U{0020}' || c == '\U{00A0}' || c == '\U{1680}'
    || '\U{2000}' <= c <= '\U{200A}'
    || c == '\U{2028}' || c == '\U{2029}' || c == '\U{202F}' || c == '\U{205F}'
    || c == '\U{3000}' || c == '\U{FEFF}'
  }

  predicate Blank(s: string) {
    forall i :: 0 <= i < |s| ==> IsSpace(s[i])
  }

  function TrimStart(s: string): (r: string)
    ensures |r| <= |s| && r == s[|s| - |r|..]
    ensures r == "" || !IsSpace(r[0])
    ensures forall i :: 0 <= i < |s| - |r| ==> IsSpace(s[i])
  {
    if s != "" && IsSpace(s[0]) then TrimStart(s[1..]) else s
  }

  function TrimEnd(s: string): (r: string)
    ensures |r| <= |s| && r == s[..|r|]
    ensures r == "" || !IsSpace(r[|r| - 1])
    ensures forall i :: |r| <= i < |s| ==> IsSpace(s[i])
  {
    if s != "" && IsSpace(s[|s| - 1]) then TrimEnd(s[..|s| - 1]) else s
  }

  /** `String.prototype.trim`. */
  function Trim(s: string): string {
    TrimEnd(TrimStart(s))
  }

  /** What remains of a text that is not blank is not empty, is no longer than the text,
      and is left alone by a second trim. */
  lemma TrimKeepsText(s: string)
    requires !Blank(s)
    ensures Trim(s) != "" && !Blank(Trim(s)) && |Trim(s)| <= |s|
    ensures Trim(Trim(s)) == Trim(s)
  {
    var t := TrimStart(s);
    var u := TrimEnd(t);
    assert u[0] == t[0] && !IsSpace(u[0]);
    assert TrimStart(u) == u;
    assert TrimEnd(u) == u;
  }

  // ---------- cutting and joining texts ----------

  predicate IsDigit(c: char) {
    '0' <= c <= '9'
  }

  /** The line terminators of JavaScript's regular expressions. */
  predicate IsLineEnd(c: char) {
    c == '\n' || c == '\r' || c == '\U{2028}' || c == '\U{2029}'
  }

  /** Where the run of characters in `class_` that starts at `from` ends. */
  function RunEnd(text: string, from: nat, class_: char -> bool): (end: nat)
    requires from <= |text|
    ensures from <= end <= |text|
    ensures forall k :: from <= k < end ==> class_(text[k])
    ensures end < |text| ==> !class_(text[end])
    decreases |text| - from
  {
    if from < |text| && class_(text[from]) then RunEnd(text, from + 1, class_) else from
  }

  /** `text.split(separator)`. */
  function Split(text: string, separator: char): (parts: seq<string>)
    ensures parts != []
  {
    if text == "" then [""]
    else
      var rest := Split(text[1..], separator);
      if text[0] == separator then [""] + rest else [[text[0]] + rest[0]] + rest[1..]
  }

  /** `text.split(/\r?\n/)`. */
  function SplitLines(text: string): (lines: seq<string>)
    ensures lines != [] && forall i :: 0 <= i < |lines| ==> |lines[i]| <= |text|
  {
    if text == "" then [""]
    else if text[0] == '\n' then [""] + SplitLines(text[1..])
    else if text[0] == '\r' && |text| > 1 && text[1] == '\n' then [""] + SplitLines(text[2..])
    else
      var rest := SplitLines(text[1..]);
      [[text[0]] + rest[0]] + rest[1..]
  }

  function Concat<T>(pieces: seq<seq<T>>): seq<T> {
    if pieces == [] then [] else Concat(pieces[..|pieces| - 1]) + pieces[|pieces| - 1]
  }

  lemma {:induction false} ConcatSplit<T>(a: seq<seq<T>>, b: seq<seq<T>>)
    ensures Concat(a + b) == Concat(a) + Concat(b)
  {
    if b == [] {
      assert a + b == a;
    } else {
      var init, last := b[..|b| - 1], b[|b| - 1];
      ConcatSplit(a, init);
      assert (a + b)[..|a + b| - 1] == a + init && (a + b)[|a + b| - 1] == last;
      assert (Concat(a) + Concat(init)) + last == Concat(a) + (Concat(init) + last);
    }
  }

  /** Where piece `k` begins in the pieces put together. */
  function BeginOf<T>(pieces: seq<seq<T>>, k: nat): nat
    requires k <= |pieces|
  {
    |Concat(pieces[..k])|
  }

  lemma BeginNext<T>(pieces: seq<seq<T>>, k: nat)
    requires k < |pieces|
    ensures BeginOf(pieces, k + 1) == BeginOf(pieces, k) + |pieces[k]|
  {
    assert pieces[..k + 1][..k] == pieces[..k];
  }

  lemma BeginAndEnd<T>(pieces: seq<seq<T>>)
    ensures BeginOf(pieces, 0) == 0 && BeginOf(pieces, |pieces|) == |Concat(pieces)|
  {
    assert pieces[..|pieces|] == pieces;
  }

  lemma {:induction false} BeginsSorted<T>(pieces: seq<seq<T>>, j: nat, k: nat)
    requires j <= k <= |pieces|
    ensures BeginOf(pieces, j) <= BeginOf(pieces, k)
    decreases k
  {
    if j >= k {
    } else {
      BeginsSorted(pieces, j, k - 1);
      BeginNext(pieces, k - 1);
    }
  }

  lemma {:induction false} PieceAt<T>(pieces: seq<seq<T>>, k: nat, c: nat)
    requires k < |pieces| && c < |pieces[k]|
    ensures BeginOf(pieces, k) + c < |Concat(pieces)|
    ensures Concat(pieces)[BeginOf(pieces, k) + c] == pieces[k][c]
    decreases |pieces|
  {
    var n := |pieces| - 1;
    if k >= n {
    } else {
      PieceAt(pieces[..n], k, c);
      assert pieces[..n][..k] == pieces[..k];
    }
  }

  /** The first place from `from` on where `p` holds, or the length. */
  function FirstWhere<T>(xs: seq<T>, from: nat, p: T -> bool): (i: nat)
    requires from <= |xs|
    ensures from <= i <= |xs| && (i < |xs| ==> p(xs[i]))
    ensures forall k :: from <= k < i ==> !p(xs[k])
    decreases |xs| - from
  {
    if from == |xs| || p(xs[from]) then from else FirstWhere(xs, from + 1, p)
  }

  /** The place of the first equal id, or -1. */
  function Position(ids: seq<string>, id: string): (i: int)
    ensures -1 <= i < |ids|
    ensures i >= 0 ==> ids[i] == id && forall k :: 0 <= k < i ==> ids[k] != id
    ensures i < 0 ==> forall k :: 0 <= k < |ids| ==> ids[k] != id
  {
    var i := FirstWhere(ids, 0, other => other == id);
    if i == |ids| then -1 else i
  }

  /** `xs.flatMap(f)`. */
  function FlatMap<A, B>(f: A -> seq<B>, xs: seq<A>): seq<B> {
    if xs == [] then [] else f(xs[0]) + FlatMap(f, xs[1..])
  }

  lemma {:induction false} FlatMapAppend<A, B>(f: A -> seq<B>, xs: seq<A>, ys: seq<A>)
    ensures FlatMap(f, xs + ys) == FlatMap(f, xs) + FlatMap(f, ys)
  {
    if xs == [] {
      assert xs + ys == ys;
    } else {
      var x, rest := xs[0], xs[1..];
      FlatMapAppend(f, rest, ys);
      assert (xs + ys)[0] == x && (xs + ys)[1..] == rest + ys;
      assert f(x) + (FlatMap(f, rest) + FlatMap(f, ys)) == (f(x) + FlatMap(f, rest)) + FlatMap(f, ys);
    }
  }

  /** `ys` are the elements of `xs` that satisfy `p`, in their order; `at` are their places. */
  predicate PicksAt<T(==)>(xs: seq<T>, ys: seq<T>, p: T -> bool, at: seq<nat>) {
    && |ys| == |at|
    && (forall k :: 0 <= k < |at| ==> at[k] < |xs| && ys[k] == xs[at[k]] && p(ys[k]))
    && (forall j, k :: 0 <= j < k < |at| ==> at[j] < at[k])
    && (forall i :: 0 <= i < |xs| && p(xs[i]) ==> i in at)
  }

  lemma PickOneMore<T>(xs: seq<T>, ys: seq<T>, p: T -> bool, at: seq<nat>, x: T)
    requires PicksAt(xs, ys, p, at)
    ensures p(x) ==> PicksAt(xs + [x], ys + [x], p, at + [|xs|])
    ensures !p(x) ==> PicksAt(xs + [x], ys, p, at)
  {
    var more := xs + [x];
    assert forall i :: 0 <= i < |xs| ==> more[i] == xs[i];
    if p(x) {
      var places := at + [|xs|];
      assert places[|at|] == |xs|;
      forall i | 0 <= i < |more| && p(more[i])
        ensures i in places
      {
        assert i < |xs| ==> i in at;
      }
    }
  }

  // ---------- lists of parsed values ----------

  /** `xs.map(parse)`, refused as a whole when one element is refused. */
  function ParseList<A, B>(parse: A -> Option<B>, xs: seq<A>): (r: Option<seq<B>>)
    ensures r.Some? ==> |r.value| == |xs|
  {
    if xs == [] then Some([])
    else
      var init := ParseList(parse, xs[..|xs| - 1]);
      var last := parse(xs[|xs| - 1]);
      if init.None? || last.None? then None else Some(init.value + [last.value])
  }

  function PrintList<A, B>(print_: B -> A, ys: seq<B>): (xs: seq<A>)
    ensures |xs| == |ys| && forall i :: 0 <= i < |ys| ==> xs[i] == print_(ys[i])
  {
    seq(|ys|, i requires 0 <= i < |ys| => print_(ys[i]))
  }

  lemma {:induction false} ParseListPointwise<A, B>(parse: A -> Option<B>, xs: seq<A>, ys: seq<B>)
    ensures ParseList(parse, xs) == Some(ys) <==>
              |xs| == |ys| && forall i :: 0 <= i < |xs| ==> parse(xs[i]) == Some(ys[i])
  {
    if xs == [] || ys == [] {
    } else {
      var n, m := |xs| - 1, |ys| - 1;
      ParseListPointwise(parse, xs[..n], ys[..m]);
      assert ys == ys[..m] + [ys[m]];
      if ParseList(parse, xs) == Some(ys) {
        var init := ParseList(parse, xs[..n]).value;
        assert init == ys[..m];
      }
    }
  }

  /** When each element parses exactly from its printed form, so does the list. */
  lemma ListCodec<A(!new), B(!new)>(parse: A -> Option<B>, print_: B -> A, ok: B -> bool, xs: seq<A>, ys: seq<B>)
    requires forall x, y :: parse(x) == Some(y) <==> x == print_(y) && ok(y)
    ensures ParseList(parse, xs) == Some(ys) <==>
              xs == PrintList(print_, ys) && forall i :: 0 <= i < |ys| ==> ok(ys[i])
  {
    ParseListPointwise(parse, xs, ys);
  }
}
