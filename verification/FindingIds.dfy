/** The rendering of persisted finding ids: the attempt id, percent-encoded, and the ordinal
    of the finding within the attempt. */
module FindingIds {
  import opened Json

  // ---------- percent-encoding (RFC 3986, sections 2.1 and 2.2) ----------

  /** The characters `encodeURIComponent` leaves alone. */
  predicate IsUnescaped(c: char) {
    || 'A' <= c <= 'Z' || 'a' <= c <= 'z' || '0' <= c <= '9'
    || c == '-' || c == '_' || c == '.' || c == '!' || c == '~' || c == '*' || c == '\'' || c == '(' || c == ')'
  }

  type Octet = n: int | 0 <= n < 256

  /** The UTF-8 encoding of one character: a lead octet and six bits in each other one. */
  function Utf8(c: char): (bs: seq<Octet>)
    ensures 1 <= |bs| <= 4
  {
    var n := c as int;
    var n1 := n / 64;
    var n2 := n1 / 64;
    if n < 0x80 then [n]
    else if n < 0x800 then [0xC0 + n1, 0x80 + n % 64]
    else if n < 0x10000 then [0xE0 + n2, 0x80 + n1 % 64, 0x80 + n % 64]
    else [0xF0 + n2 / 64, 0x80 + n2 % 64, 0x80 + n1 % 64, 0x80 + n % 64]
  }

  /** How many octets a lead octet announces. */
  function Length(lead: Octet): nat {
    if lead < 0x80 then 1 else if lead < 0xE0 then 2 else if lead < 0xF0 then 3 else 4
  }

  lemma Utf8Lead(c: char)
    ensures Length(Utf8(c)[0]) == |Utf8(c)|
  {
  }

  /** A number is fixed by its quotient and remainder. */
  lemma SixBits(m: nat, n: nat)
    requires m / 64 == n / 64 && m % 64 == n % 64
    ensures m == n
  {
  }

  lemma Utf8Injective(c: char, d: char)
    requires Utf8(c) == Utf8(d)
    ensures c == d
  {
    var m, n, bs := c as int, d as int, Utf8(c);
    Utf8Lead(c);
    Utf8Lead(d);
    if |bs| == 1 {
      assert m == Utf8(c)[0] && n == Utf8(d)[0];
    } else {
      assert m % 64 == Utf8(c)[|bs| - 1] - 0x80 && n % 64 == Utf8(d)[|bs| - 1] - 0x80;
      assert m / 64 == n / 64 by {
        if |bs| == 2 {
          assert m / 64 == Utf8(c)[0] - 0xC0 && n / 64 == Utf8(d)[0] - 0xC0;
        } else {
          assert m / 64 % 64 == Utf8(c)[|bs| - 2] - 0x80 && n / 64 % 64 == Utf8(d)[|bs| - 2] - 0x80;
          UpperBits(c, d);
          SixBits(m / 64, n / 64);
        }
      }
      SixBits(m, n);
    }
  }

  lemma UpperBits(c: char, d: char)
    requires Utf8(c) == Utf8(d) && |Utf8(c)| >= 3
    ensures c as int / 64 / 64 == d as int / 64 / 64
  {
    var m, n := c as int / 64 / 64, d as int / 64 / 64;
    Utf8Lead(c);
    Utf8Lead(d);
    if |Utf8(c)| == 3 {
      assert m == Utf8(c)[0] - 0xE0 && n == Utf8(d)[0] - 0xE0;
    } else {
      assert m / 64 == Utf8(c)[0] - 0xF0 && n / 64 == Utf8(d)[0] - 0xF0;
      assert m % 64 == Utf8(c)[1] - 0x80 && n % 64 == Utf8(d)[1] - 0x80;
      SixBits(m, n);
    }
  }

  function HexDigit(n: nat): (c: char)
    requires n < 16
    ensures '0' <= c <= '9' || 'A' <= c <= 'F'
  {
    if n < 10 then (48 + n) as char else (55 + n) as char
  }

  function Percent(b: Octet): (s: string)
    ensures |s| == 3 && s[0] == '%' && ':' !in s
  {
    ['%', HexDigit(b / 16), HexDigit(b % 16)]
  }

  lemma PercentInjective(a: Octet, b: Octet)
    requires Percent(a) == Percent(b)
    ensures a == b
  {
    assert Percent(a)[1] == Percent(b)[1] && Percent(a)[2] == Percent(b)[2];
    assert a == a / 16 * 16 + a % 16;
    assert b == b / 16 * 16 + b % 16;
  }

  function Percents(bs: seq<Octet>): (s: string)
    ensures |s| == 3 * |bs| && ':' !in s
  {
    if bs == [] then "" else Percent(bs[0]) + Percents(bs[1..])
  }

  function EncodeChar(c: char): (s: string)
    ensures s != "" && ':' !in s
  {
    if IsUnescaped(c) then [c] else Percents(Utf8(c))
  }

  /** `encodeURIComponent`. */
  function Encode(s: string): (e: string)
    ensures ':' !in e
  {
    if s == "" then "" else EncodeChar(s[0]) + Encode(s[1..])
  }

  lemma {:induction false} PercentsPrefix(a: seq<Octet>, b: seq<Octet>, r: string, t: string)
    requires |a| == |b| && Percents(a) + r == Percents(b) + t
    ensures a == b && r == t
  {
    if a == [] {
      assert Percents(a) + r == r && Percents(b) + t == t;
    } else {
      var x, y := Percents(a) + r, Percents(b) + t;
      assert x[..3] == Percent(a[0]) && y[..3] == Percent(b[0]);
      PercentInjective(a[0], b[0]);
      assert x[3..] == Percents(a[1..]) + r && y[3..] == Percents(b[1..]) + t;
      PercentsPrefix(a[1..], b[1..], r, t);
    }
  }

  /** The first octet of an escaped character shows in the text, and with it how many octets
      follow. */
  lemma SameLength(a: seq<Octet>, b: seq<Octet>, r: string, t: string)
    requires a != [] && b != [] && Percents(a) + r == Percents(b) + t
    ensures a[0] == b[0]
  {
    var x, y := Percents(a) + r, Percents(b) + t;
    assert x[..3] == Percent(a[0]) && y[..3] == Percent(b[0]);
    PercentInjective(a[0], b[0]);
  }

  /** No encoding of a character is a proper prefix of another's. */
  lemma EncodeCharPrefix(c: char, d: char, r: string, t: string)
    requires EncodeChar(c) + r == EncodeChar(d) + t
    ensures c == d && r == t
  {
    var x, y := EncodeChar(c) + r, EncodeChar(d) + t;
    assert x[0] == EncodeChar(c)[0] && y[0] == EncodeChar(d)[0];
    if IsUnescaped(c) || IsUnescaped(d) {
      EscapeStarts(c);
      EscapeStarts(d);
      assert x[1..] == r && y[1..] == t;
    } else {
      SameLength(Utf8(c), Utf8(d), r, t);
      Utf8Lead(c);
      Utf8Lead(d);
      PercentsPrefix(Utf8(c), Utf8(d), r, t);
      Utf8Injective(c, d);
    }
  }

  lemma EscapeStarts(c: char)
    ensures !IsUnescaped(c) ==> EncodeChar(c)[0] == '%'
    ensures !IsUnescaped('%')
  {
  }

  lemma {:induction false} EncodeInjective(s: string, t: string)
    requires Encode(s) == Encode(t)
    ensures s == t
  {
    if s == "" || t == "" {
    } else {
      EncodeCharPrefix(s[0], t[0], Encode(s[1..]), Encode(t[1..]));
      EncodeInjective(s[1..], t[1..]);
    }
  }

  // ---------- ordinals ----------

  function Decimal(n: nat): (s: string)
    ensures s != "" && ':' !in s
  {
    (if n < 10 then "" else Decimal(n / 10)) + [(48 + n % 10) as char]
  }

  lemma {:induction false} DecimalInjective(m: nat, n: nat)
    requires Decimal(m) == Decimal(n)
    ensures m == n
  {
    var s := Decimal(m);
    var k := |s| - 1;
    assert s[k] == (48 + m % 10) as char == (48 + n % 10) as char;
    var head := if m < 10 then "" else Decimal(m / 10);
    assert s[..k] == head;
    assert s[..k] == if n < 10 then "" else Decimal(n / 10);
    if m < 10 || n < 10 {
    } else {
      DecimalInjective(m / 10, n / 10);
    }
  }

  // ---------- ids ----------

  const PREFIX := "as-built:"

  function FindingId(attemptId: string, ordinal: nat): string {
    PREFIX + (Encode(attemptId) + ":" + Decimal(ordinal))
  }

  lemma AfterPrefix(s: string, t: string)
    requires PREFIX + s == PREFIX + t
    ensures s == t
  {
    assert (PREFIX + s)[|PREFIX|..] == s && (PREFIX + t)[|PREFIX|..] == t;
  }

  lemma {:induction false} SplitAtColon(a: string, b: string, r: string, t: string)
    requires ':' !in a && ':' !in b && a + ":" + r == b + ":" + t
    ensures a == b && r == t
  {
    var x, y := a + ":" + r, b + ":" + t;
    assert x[|a|] == ':' && y[|b|] == ':';
    assert x[..|a|] == a && y[..|b|] == b;
    assert x[|a| + 1..] == r && y[|b| + 1..] == t;
  }

  /** Findings of different attempts, or of different places in one attempt, never share an
      id, because no encoded attempt id contains a colon of its own. */
  lemma FindingIdInjective(a: string, i: nat, b: string, j: nat)
    requires FindingId(a, i) == FindingId(b, j)
    ensures a == b && i == j
  {
    hide Encode, Decimal;
    AfterPrefix(Encode(a) + ":" + Decimal(i), Encode(b) + ":" + Decimal(j));
    SplitAtColon(Encode(a), Encode(b), Decimal(i), Decimal(j));
    EncodeInjective(a, b);
    DecimalInjective(i, j);
  }
}
