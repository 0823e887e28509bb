/** The paths in the file headers of `git diff`: git's C-style quoting, and what the
    projection reads back out of a header. */
module GitPaths {
  import opened Json
  import opened FindingIds
  import opened ShellText

  // ---------- octets of texts ----------

  function Utf8Text(s: string): seq<Octet> {
    FlatMap(Utf8, s)
  }

  lemma {:induction false} SomeOctets(s: string)
    requires s != ""
    ensures Utf8Text(s) != []
  {
    assert Utf8(s[0]) != [];
  }

  /** A character of two UTF-16 code units. */
  predicate IsAstral(c: char) {
    c as int >= 0x10000
  }

  /** What a lone half of a surrogate pair is encoded as. */
  const REPLACEMENT: seq<Octet> := [0xEF, 0xBF, 0xBD]

  /** The octets of a character whose code units are encoded one at a time. */
  function UnitBytes(c: char): seq<Octet> {
    if IsAstral(c) then REPLACEMENT + REPLACEMENT else Utf8(c)
  }

  // ---------- decoding ----------

  /** What a backslash and the character after it stand for; only the first code unit of the
      character is taken as escaped. */
  function EscapedBytes(c: char): seq<Octet> {
    match c
    case 'a' => [7]
    case 'b' => [8]
    case 't' => [9]
    case 'n' => [10]
    case 'v' => [11]
    case 'f' => [12]
    case 'r' => [13]
    case _ =>
      if IsAstral(c) then [(0xD800 + (c as int - 0x10000) / 0x400) % 0x100] + REPLACEMENT
      else [c as int % 0x100]
  }

  predicate IsOctal(c: char) {
    '0' <= c <= '7'
  }

  predicate OctalAhead(s: string) {
    |s| >= 4 && IsOctal(s[1]) && IsOctal(s[2]) && IsOctal(s[3])
  }

  function OctalValue(s: string): Octet
    requires OctalAhead(s)
  {
    ((s[1] as int - 48) * 64 + (s[2] as int - 48) * 8 + (s[3] as int - 48)) % 0x100
  }

  /** What the first item of a quoted text stands for, and how many characters it takes. */
  function Item(s: string): (r: (seq<Octet>, nat))
    requires s != ""
    ensures 1 <= r.1 <= |s|
  {
    if s[0] != '\\' then (UnitBytes(s[0]), 1)
    else if |s| == 1 then ([92], 1)
    else if OctalAhead(s) then ([OctalValue(s)], 4)
    else (EscapedBytes(s[1]), 2)
  }

  /** The octets a quoted text stands for. */
  function Decode(s: string): seq<Octet> {
    if s == "" then [] else Item(s).0 + Decode(s[Item(s).1..])
  }

  lemma DecodeAt(s: string, i: nat)
    requires i < |s|
    ensures Decode(s[i..]) == Item(s[i..]).0 + Decode(s[i + Item(s[i..]).1..])
  {
    hide Item;
    assert s[i..][Item(s[i..]).1..] == s[i + Item(s[i..]).1..];
  }

  method DecodeGitQuotedPath(encoded: string) returns (bytes: seq<Octet>)
    ensures bytes == Decode(encoded)
  {
    hide UnitBytes, EscapedBytes, IsOctal, Decode;
    bytes := [];
    var index := 0;
    while index < |encoded|
      invariant index <= |encoded|
      invariant bytes + Decode(encoded[index..]) == Decode(encoded)
    {
      DecodeAt(encoded, index);
      ghost var item, before, from := Item(encoded[index..]), bytes, index;
      if encoded[index] != '\\' {
        bytes := bytes + UnitBytes(encoded[index]);
        index := index + 1;
      } else if index + 1 == |encoded| {
        bytes := bytes + [92];
        index := index + 1;
      } else if index + 3 < |encoded|
                && IsOctal(encoded[index + 1]) && IsOctal(encoded[index + 2]) && IsOctal(encoded[index + 3]) {
        bytes := bytes + [OctalValue(encoded[index..])];
        index := index + 4;
      } else {
        bytes := bytes + EscapedBytes(encoded[index + 1]);
        index := index + 2;
      }
      assert bytes == before + item.0 && index == from + item.1;
    }
    NothingToDecode(encoded[|encoded|..]);
  }

  lemma NothingToDecode(s: string)
    requires s == ""
    ensures Decode(s) == []
  {
  }

  // ---------- git's quoting ----------

  /** How git writes one octet of a quoted path. */
  function QuoteByte(b: Octet): (s: string)
    ensures s != ""
  {
    if 7 <= b <= 13 then ['\\', "abtnvfr"[b - 7]]
    else if b == 34 || b == 92 then ['\\', b as char]
    else if b < 32 || b >= 127 then ['\\', (48 + b / 64) as char, (48 + b / 8 % 8) as char, (48 + b % 8) as char]
    else [b as char]
  }

  /** A path as git quotes it, with `core.quotePath` at its default. */
  function Quote(bs: seq<Octet>): string {
    FlatMap(QuoteByte, bs)
  }

  lemma DecodeOne(b: Octet, rest: string)
    ensures Decode(QuoteByte(b) + rest) == [b] + Decode(rest)
  {
    hide QuoteByte, EscapedBytes, Utf8;
    var q := QuoteByte(b);
    var s := q + rest;
    assert s[|q|..] == rest;
    QuotedForm(b);
    if |q| == 4 {
      assert s[1] == q[1] && s[2] == q[2] && s[3] == q[3];
      assert OctalValue(s) == OctalValue(q);
    } else if |q| == 2 {
      assert s[1] == q[1];
    }
  }

  /** The three forms of a written octet. */
  lemma QuotedForm(b: Octet)
    ensures var q := QuoteByte(b);
            || (q == [q[0]] && q[0] != '\\' && q[0] != '"' && UnitBytes(q[0]) == [b])
            || (q == ['\\', q[1]] && !IsOctal(q[1]) && !IsLineEnd(q[1]) && EscapedBytes(q[1]) == [b])
            || (|q| == 4 && q[0] == '\\' && OctalAhead(q) && OctalValue(q) == b)
  {
    OctalDigits(b);
    if 7 <= b <= 13 {
      var names := "abtnvfr";
      assert names[0] == 'a' && names[1] == 'b' && names[2] == 't' && names[3] == 'n'
          && names[4] == 'v' && names[5] == 'f' && names[6] == 'r';
    }
  }

  lemma OctalDigits(b: Octet)
    ensures b / 64 * 64 + b / 8 % 8 * 8 + b % 8 == b && b / 64 < 8
  {
  }

  /** Decoding gives back every octet of a path that git quoted. */
  lemma {:induction false} DecodeQuote(bs: seq<Octet>)
    ensures Decode(Quote(bs)) == bs
  {
    if bs == [] {
    } else {
      DecodeQuote(bs[1..]);
      DecodeOne(bs[0], Quote(bs[1..]));
    }
  }

  function QuoteChar(c: char): string {
    if c as int < 128 then QuoteByte(c as int) else [c]
  }

  /** A path as git quotes it with `core.quotePath` off: only ASCII is escaped. */
  function QuoteText(s: string): string {
    FlatMap(QuoteChar, s)
  }

  function Astrals(s: string): nat {
    if s == "" then 0 else (if IsAstral(s[0]) then 1 else 0) + Astrals(s[1..])
  }

  /** With `core.quotePath` off the path comes back exactly when none of its characters takes
      two UTF-16 code units: the decoder goes by code units, and each half is replaced. */
  lemma DecodeQuoteText(s: string)
    ensures Decode(QuoteText(s)) == Utf8Text(s) <==> forall i :: 0 <= i < |s| ==> !IsAstral(s[i])
  {
    DecodedLength(s);
    NoAstrals(s);
  }

  lemma {:induction false} DecodedLength(s: string)
    ensures |Decode(QuoteText(s))| == |Utf8Text(s)| + 2 * Astrals(s)
    ensures Astrals(s) == 0 ==> Decode(QuoteText(s)) == Utf8Text(s)
  {
    if s == "" {
    } else {
      DecodedLength(s[1..]);
      var rest := QuoteText(s[1..]);
      if s[0] as int < 128 {
        DecodeOne(s[0] as int, rest);
      } else {
        assert ([s[0]] + rest)[1..] == rest;
      }
    }
  }

  lemma {:induction false} NoAstrals(s: string)
    ensures Astrals(s) == 0 <==> forall i :: 0 <= i < |s| ==> !IsAstral(s[i])
  {
    if s == "" {
    } else {
      NoAstrals(s[1..]);
      if Astrals(s) == 0 {
        forall i | 0 <= i < |s|
          ensures !IsAstral(s[i])
        {
          assert i > 0 ==> s[i] == s[1..][i - 1];
        }
      } else if Astrals(s[1..]) > 0 {
        var i :| 0 <= i < |s[1..]| && IsAstral(s[1..][i]);
        assert s[i + 1] == s[1..][i];
      }
    }
  }

  // ---------- headers ----------
  //
  // A header is the rest of a line after `diff --git `, so it holds no line terminator.

  function Behind(n: nat, k: int): int {
    if k < 0 then -1 else n + k
  }

  /** How far the body of a quoted path reaches: up to the first quote that no backslash
      escapes, or -1.  The body's items never start with a quote, so the regular expression
      has no other way to match. */
  function BodyLength(s: string): (k: int)
    ensures k == -1 || (0 <= k < |s| && s[k] == '"')
  {
    if s == "" then -1
    else if s[0] == '"' then 0
    else if s[0] != '\\' then Behind(1, BodyLength(s[1..]))
    else if |s| == 1 || IsLineEnd(s[1]) then -1
    else Behind(2, BodyLength(s[2..]))
  }

  function QuotedPath(header: string): Option<seq<Octet>> {
    if !StartsWith(header, "\"a/", 0) then None
    else
      var k := BodyLength(header[3..]);
      if k < 0 || !StartsWith(header[3 + k..], "\" \"b/", 0) then None
      else
        var second := header[3 + k + 5..];
        var m := BodyLength(second);
        if m < 0 || m + 1 != |second| then None else Some(Decode(second[..m]))
  }

  /** Whether ` b/` stands at `j` with something after it. */
  predicate SeparatesAt(s: string, j: int) {
    0 <= j && j + 3 < |s| && s[j] == ' ' && s[j + 1] == 'b' && s[j + 2] == '/'
  }

  /** The last place below `below`, behind `a/`, where ` b/` separates two names, or -1. */
  function LastSeparator(header: string, below: nat): (j: int)
    ensures j == -1 || (2 <= j < below && j + 3 < |header| && SeparatesAt(header, j))
    ensures forall i :: 2 <= i < below && SeparatesAt(header, i) ==> i <= j
  {
    if below <= 2 then -1
    else if SeparatesAt(header, below - 1) then below - 1
    else LastSeparator(header, below - 1)
  }

  /** The path of the changed file, as octets. */
  function PathOf(header: string): Option<seq<Octet>> {
    if QuotedPath(header).Some? then QuotedPath(header)
    else if !StartsWith(header, "a/", 0) then None
    else
      var j := LastSeparator(header, |header|);
      if j < 0 then None else Some(Utf8Text(header[j + 3..]))
  }

  lemma {:induction false} QuoteBody(bs: seq<Octet>, rest: string)
    ensures BodyLength(Quote(bs) + ("\"" + rest)) == |Quote(bs)|
  {
    var tail := "\"" + rest;
    if bs == [] {
      assert Quote(bs) + tail == tail;
    } else {
      QuoteBody(bs[1..], rest);
      QuoteOne(bs[0], Quote(bs[1..]) + tail);
      assert Quote(bs) + tail == QuoteByte(bs[0]) + (Quote(bs[1..]) + tail);
    }
  }

  lemma QuoteOne(b: Octet, tail: string)
    ensures BodyLength(QuoteByte(b) + tail) == Behind(|QuoteByte(b)|, BodyLength(tail))
  {
    hide QuoteByte, EscapedBytes, UnitBytes, OctalValue;
    var q := QuoteByte(b);
    var s := q + tail;
    QuotedForm(b);
    assert s[|q|..] == tail;
    if |q| == 4 {
      assert s[1] == q[1] && s[2] == q[2] && s[3] == q[3];
      assert BodyLength(s) == Behind(2, BodyLength(s[2..]));
      assert s[2..][1..] == s[3..] && s[3..][1..] == s[4..];
      assert BodyLength(s[2..]) == Behind(1, BodyLength(s[3..]));
      assert BodyLength(s[3..]) == Behind(1, BodyLength(s[4..]));
    } else if |q| == 2 {
      assert s[1] == q[1];
    }
  }

  /** From a header with both names quoted, the new name comes back octet by octet. */
  lemma QuotedHeader(old_: seq<Octet>, new_: seq<Octet>)
    ensures PathOf("\"a/" + Quote(old_) + "\" \"b/" + Quote(new_) + "\"") == Some(new_)
  {
    hide BodyLength, Decode, Quote;
    var header := "\"a/" + Quote(old_) + "\" \"b/" + Quote(new_) + "\"";
    var k := |Quote(old_)|;
    var rest := " \"b/" + Quote(new_) + "\"";
    assert header[3..] == Quote(old_) + ("\"" + rest);
    QuoteBody(old_, rest);
    assert header[3 + k..] == "\"" + rest;
    assert header[3 + k + 5..] == Quote(new_) + ("\"" + "");
    QuoteBody(new_, "");
    assert (Quote(new_) + ("\"" + ""))[..|Quote(new_)|] == Quote(new_);
    DecodeQuote(new_);
  }

  /** A header whose old name alone needed quoting, as in a rename, is not understood at
      all; the whole projection then fails. */
  lemma MixedHeaderRefused(old_: seq<Octet>, new_: string)
    ensures PathOf("\"a/" + Quote(old_) + "\" b/" + new_).None?
  {
    hide BodyLength, Decode, Quote;
    var header := "\"a/" + Quote(old_) + "\" b/" + new_;
    var rest := " b/" + new_;
    assert header[3..] == Quote(old_) + ("\"" + rest);
    QuoteBody(old_, rest);
    var tail := header[3 + |Quote(old_)|..];
    assert tail == "\"" + rest;
    StartsAt(tail, "\" \"b/", 0, 2);
    StartsAt(header, "a/", 0, 0);
  }

  /** From a header with both names bare, the new name comes back exactly when it is not
      empty and holds no ` b/` of its own before its end: the last ` b/` of the header is
      taken for the separator. */
  lemma PlainHeader(old_: string, new_: string)
    ensures PathOf("a/" + old_ + " b/" + new_) == Some(Utf8Text(new_)) <==>
              new_ != "" && forall k :: 0 <= k < |new_| ==> !SeparatesAt(new_, k)
  {
    hide Utf8Text, LastSeparator, QuotedPath, SeparatesAt;
    var header := "a/" + old_ + " b/" + new_;
    var j := LastSeparator(header, |header|);
    assert header[0] == 'a' && header[..2] == "a/";
    BareHeader(header);
    var at := 2 + |old_|;
    assert header[at + 3..] == new_;
    if j >= 0 {
      SuffixTexts(header, j + 3, at + 3);
      SuffixTexts(header, at + 3, j + 3);
    }
    Separators(old_, new_);
    if forall k :: 0 <= k < |new_| ==> !SeparatesAt(new_, k) {
      assert new_ != "" ==> j == at;
    } else {
      var k :| 0 <= k < |new_| && SeparatesAt(new_, k);
      assert SeparatesAt(header, at + 3 + k);
    }
  }

  /** Where a bare header has a ` b/` from the real separator on. */
  lemma Separators(old_: string, new_: string)
    ensures var header, at := "a/" + old_ + " b/" + new_, 2 + |old_|;
            && (SeparatesAt(header, at) <==> new_ != "")
            && !SeparatesAt(header, at + 1) && !SeparatesAt(header, at + 2)
            && (forall k :: 0 <= k < |new_| ==> (SeparatesAt(new_, k) <==> SeparatesAt(header, at + 3 + k)))
            && (forall i :: at + 3 <= i && SeparatesAt(header, i) ==> SeparatesAt(new_, i - at - 3))
  {
    var before, header := "a/" + old_ + " b/", "a/" + old_ + " b/" + new_;
    var at := 2 + |old_|;
    assert before[at] == ' ' && before[at + 1] == 'b' && before[at + 2] == '/';
    assert header == before + new_;
  }

  lemma SuffixTexts(s: string, i: nat, k: nat)
    requires i <= |s| && k <= |s|
    ensures i < k ==> Utf8Text(s[i..]) != Utf8Text(s[k..])
  {
    if i < k {
      assert s[i..] == s[i..k] + s[k..];
      FlatMapAppend(Utf8, s[i..k], s[k..]);
      SomeOctets(s[i..k]);
    }
  }

  lemma BareHeader(header: string)
    requires header != "" && header[0] == 'a'
    ensures QuotedPath(header).None?
  {
    hide StartsWith;
    StartsAt(header, "\"a/", 0, 0);
  }

  // ---------- a bare old name and a quoted new one ----------

  predicate IsAscii(s: string) {
    forall i :: 0 <= i < |s| ==> s[i] as int < 128
  }

  lemma {:induction false} AsciiOctets(s: string)
    requires IsAscii(s)
    ensures |Utf8Text(s)| == |s| && forall i :: 0 <= i < |s| ==> Utf8Text(s)[i] == s[i] as int
  {
    if s == "" {
    } else {
      AsciiOctets(s[1..]);
      assert Utf8(s[0]) == [s[0] as int];
    }
  }

  lemma {:induction false} OctetsOf(s: string)
    ensures |Utf8Text(s)| >= |s|
  {
    if s == "" {
    } else {
      OctetsOf(s[1..]);
    }
  }

  lemma {:induction false} QuoteIsAscii(bs: seq<Octet>)
    ensures IsAscii(Quote(bs)) && |Quote(bs)| >= |bs|
  {
    if bs == [] {
    } else {
      QuoteIsAscii(bs[1..]);
      assert IsAscii(QuoteByte(bs[0]));
    }
  }

  /** Of the characters of ` b/`, each is written only for its own octet. */
  lemma PlainByte(b: Octet)
    ensures var q := QuoteByte(b);
            && (forall k :: 0 <= k < |q| && q[k] == ' ' ==> b == 32 && |q| == 1)
            && (q[0] == 'b' ==> b == 98 && |q| == 1) && (q[0] == '/' ==> b == 47 && |q| == 1)
  {
    if 7 <= b <= 13 {
      var names := "abtnvfr";
      assert names[0] == 'a' && names[1] == 'b' && names[2] == 't' && names[3] == 'n'
          && names[4] == 'v' && names[5] == 'f' && names[6] == 'r';
    }
  }

  lemma QuoteSplit(bs: seq<Octet>)
    requires bs != []
    ensures Quote(bs)[..|QuoteByte(bs[0])|] == QuoteByte(bs[0]) && Quote(bs)[|QuoteByte(bs[0])|..] == Quote(bs[1..])
  {
  }

  /** A written ` b/` stands for itself: what is written after it is the rest of the name. */
  lemma {:induction false} WrittenSeparator(bs: seq<Octet>, k: nat) returns (n: nat)
    requires k + 3 <= |Quote(bs)| && Quote(bs)[k] == ' ' && Quote(bs)[k + 1] == 'b' && Quote(bs)[k + 2] == '/'
    ensures n + 3 <= |bs| && bs[n] == 32 && bs[n + 1] == 98 && bs[n + 2] == 47
    ensures Quote(bs)[k + 3..] == Quote(bs[n + 3..])
  {
    hide QuoteByte, Quote;
    NothingWritten(bs);
    var q, s := QuoteByte(bs[0]), Quote(bs);
    QuoteSplit(bs);
    PlainByte(bs[0]);
    if k < |q| {
      assert s[..|q|][k] == s[k];
      n := 0;
      NextPlain(bs, 'b', 98);
      NextPlain(bs[1..], '/', 47);
      QuoteSplit(bs[1..]);
      QuoteSplit(bs[2..]);
      assert bs[1..][1..] == bs[2..] && bs[2..][1..] == bs[3..];
      assert s[1..][1..] == s[2..] && s[2..][1..] == s[3..];
    } else {
      assert s[|q|..][k - |q|] == s[k] && s[|q|..][k - |q| + 1] == s[k + 1] && s[|q|..][k - |q| + 2] == s[k + 2];
      var m := WrittenSeparator(bs[1..], k - |q|);
      n := m + 1;
      assert bs[1..][m] == bs[n] && bs[1..][m + 1] == bs[n + 1] && bs[1..][m + 2] == bs[n + 2];
      assert bs[1..][m + 3..] == bs[n + 3..];
      assert s[|q|..][k - |q| + 3..] == s[k + 3..];
    }
  }

  lemma NothingWritten(bs: seq<Octet>)
    ensures |bs| == 0 ==> |Quote(bs)| == 0
  {
  }

  /** After a one-character octet, the next written character is that of the next octet. */
  lemma NextPlain(bs: seq<Octet>, c: char, b: Octet)
    requires bs != [] && |QuoteByte(bs[0])| == 1 && |Quote(bs)| > 1 && Quote(bs)[1] == c
    requires (c == 'b' && b == 98) || (c == '/' && b == 47)
    ensures |bs| > 1 && bs[1] == b && |QuoteByte(bs[1])| == 1
  {
    hide QuoteByte, Quote;
    QuoteSplit(bs);
    assert Quote(bs)[1..][0] == c;
    NothingWritten(bs[1..]);
    QuoteSplit(bs[1..]);
    PlainByte(bs[1]);
    assert Quote(bs[1..])[..|QuoteByte(bs[1])|][0] == c;
  }

  /** A ` b/` of a header with a bare old and a quoted new name lies within one of them. */
  lemma SeparatorPlace(old_: string, q: string, j: int)
    requires j >= 2 && SeparatesAt("a/" + old_ + " \"b/" + q + "\"", j)
    ensures var from, header := 6 + |old_|, "a/" + old_ + " \"b/" + q + "\"";
            if j < from then |header[j + 3..]| > |q|
            else
              && j - from + 3 <= |q|
              && q[j - from] == ' ' && q[j - from + 1] == 'b' && q[j - from + 2] == '/'
              && header[j + 3..] == q[j - from + 3..] + "\""
  {
    var from, before := 6 + |old_|, "a/" + old_ + " \"b/";
    var header := before + q + "\"";
    assert before[from - 4] == ' ' && before[from - 3] == '"' && before[from - 2] == 'b' && before[from - 1] == '/';
    assert header[..from] == before && header[from..] == q + "\"";
    if j >= from {
      assert header[from..][j - from] == header[j] && header[from..][j - from + 1] == header[j + 1];
      assert header[from..][j - from + 2] == header[j + 2];
      assert header[j + 3..] == header[from..][j - from + 3..];
    }
  }

  /** What is written behind a separator is not the whole name: it would hold the separator
      once more, further on. */
  lemma TailIsNoName(new_: seq<Octet>, k: nat, tail: string)
    requires k + 3 <= |Quote(new_)| && tail == Quote(new_)[k + 3..] + "\""
    requires Quote(new_)[k] == ' ' && Quote(new_)[k + 1] == 'b' && Quote(new_)[k + 2] == '/'
    requires Utf8Text(tail) == new_
    ensures exists i :: SeparatesAt(tail, i)
  {
    hide Utf8Text, Quote;
    QuoteIsAscii(new_);
    AsciiOctets(tail);
    var n := WrittenSeparator(new_, k);
    NothingWritten(new_[n + 3..]);
    assert new_[n] == tail[n] as int && new_[n + 1] == tail[n + 1] as int && new_[n + 2] == tail[n + 2] as int;
    assert SeparatesAt(tail, n);
  }

  /** A header whose new name alone needed quoting never gives that name: what stands behind
      the last ` b/` still carries the closing quote, or there is no ` b/` at all. */
  lemma QuotedNewNeverRead(old_: string, new_: seq<Octet>)
    ensures PathOf("a/" + old_ + " \"b/" + Quote(new_) + "\"") != Some(new_)
  {
    hide Utf8Text, LastSeparator, QuotedPath, Quote, SeparatesAt;
    var header := "a/" + old_ + " \"b/" + Quote(new_) + "\"";
    assert header[0] == 'a';
    BareHeader(header);
    var j := LastSeparator(header, |header|);
    if j >= 0 {
      var tail := header[j + 3..];
      QuoteIsAscii(new_);
      OctetsOf(tail);
      SeparatorPlace(old_, Quote(new_), j);
      if Utf8Text(tail) == new_ {
        TailIsNoName(new_, j - 6 - |old_|, tail);
        var i :| SeparatesAt(tail, i);
        SeparatorInTail(header, j + 3, i);
      }
    }
  }

  lemma SeparatorInTail(header: string, from: nat, i: int)
    requires from <= |header| && SeparatesAt(header[from..], i)
    ensures SeparatesAt(header, from + i) && from <= from + i < |header|
  {
  }

  // ---------- the four forms of a header ----------

  /** One name of a header, after its `a/` or `b/`, quoted or bare. */
  function Side(prefix: string, name: string, quoted: bool): string {
    if quoted then "\"" + prefix + Quote(Utf8Text(name)) + "\"" else prefix + name
  }

  function HeaderFor(old_: string, oldQuoted: bool, new_: string, newQuoted: bool): string {
    Side("a/", old_, oldQuoted) + " " + Side("b/", new_, newQuoted)
  }

  /** The new name comes back from its header exactly when both names are quoted, or both are
      bare and the new one is not empty and holds no ` b/` before its end.  A rename that
      needs quotes on one side only is never read. */
  lemma NewNameExactly(old_: string, oldQuoted: bool, new_: string, newQuoted: bool)
    ensures PathOf(HeaderFor(old_, oldQuoted, new_, newQuoted)) == Some(Utf8Text(new_)) <==>
              && oldQuoted == newQuoted
              && (!newQuoted ==> new_ != "" && forall k :: 0 <= k < |new_| ==> !SeparatesAt(new_, k))
  {
    hide Utf8Text, Quote, PathOf, SeparatesAt, HeaderFor;
    var o, n := Utf8Text(old_), Utf8Text(new_);
    HeaderForms(old_, oldQuoted, new_, newQuoted);
    if oldQuoted && newQuoted {
      QuotedHeader(o, n);
    } else if oldQuoted {
      MixedHeaderRefused(o, new_);
    } else if newQuoted {
      QuotedNewNeverRead(old_, n);
    } else {
      PlainHeader(old_, new_);
    }
  }

  lemma HeaderForms(old_: string, oldQuoted: bool, new_: string, newQuoted: bool)
    ensures HeaderFor(old_, oldQuoted, new_, newQuoted) ==
            if oldQuoted && newQuoted then "\"a/" + Quote(Utf8Text(old_)) + "\" \"b/" + Quote(Utf8Text(new_)) + "\""
            else if oldQuoted then "\"a/" + Quote(Utf8Text(old_)) + "\" b/" + new_
            else if newQuoted then "a/" + old_ + " \"b/" + Quote(Utf8Text(new_)) + "\""
            else "a/" + old_ + " b/" + new_
  {
    hide Utf8Text, Quote;
  }
}
