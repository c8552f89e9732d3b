/** String helpers shared by the backend (Python) and the frontend (JavaScript)
    models: the two languages' whitespace classes, prefix and suffix tests,
    splitting on one character, joining, trimming, decimal rendering of
    integers and the code-point order on strings. */
module Text {

  /** Python's `str.isspace()`: the characters `str.split()` splits on and
      `str.strip()` removes. */
  predicate IsPySpace(c: char) {
    || ('\t' <= c <= '\r')
    || ('\U{1C}' <= c <= '\U{1F}')
    || c == ' ' || c == '\U{85}' || c == '\U{A0}' || c == '\U{1680}'
    || ('\U{2000}' <= c <= '\U{200A}')
    || c == '\U{2028}' || c == '\U{2029}' || c == '\U{202F}' || c == '\U{205F}'
    || c == '\U{3000}'
  }

  /** ECMAScript WhiteSpace and LineTerminator: what `String.prototype.trim`
      removes. */
  predicate IsJsSpace(c: char) {
    || ('\t' <= c <= '\r')
    || c == ' ' || c == '\U{A0}' || c == '\U{FEFF}' || c == '\U{1680}'
    || ('\U{2000}' <= c <= '\U{200A}')
    || c == '\U{2028}' || c == '\U{2029}' || c == '\U{202F}' || c == '\U{205F}'
    || c == '\U{3000}'
  }

  predicate StartsWith(s: string, prefix: string) {
    |prefix| <= |s| && s[..|prefix|] == prefix
  }

  predicate EndsWith(s: string, suffix: string) {
    |suffix| <= |s| && s[|s| - |suffix|..] == suffix
  }

  /** A concatenation starts with its first part and ends with its last. */
  lemma Affixes(a: string, b: string, c: string)
    ensures StartsWith(a + b + c, a) && EndsWith(a + b + c, c)
  {
    assert (a + b + c)[..|a|] == a;
    assert (a + b + c)[|a + b|..] == c;
  }

  /** Every character of `s` satisfies `isSpace`. */
  predicate AllSpace(s: string, isSpace: char -> bool) {
    forall i :: 0 <= i < |s| ==> isSpace(s[i])
  }

  /** `s.split(sep)` in JavaScript (and in Python with an explicit one-character
      separator): the pieces between the occurrences of `sep`. */
  function Split(s: string, sep: char): (r: seq<string>)
    ensures |r| >= 1
    ensures forall i :: 0 <= i < |r| ==> sep !in r[i]
    decreases |s|
  {
    if s == [] then [""]
    else
      var rest := Split(s[1..], sep);
      if s[0] == sep then [""] + rest
      else [[s[0]] + rest[0]] + rest[1..]
  }

  /** The number of occurrences of `c` in `s`. */
  function CountOf(s: string, c: char): nat
    decreases |s|
  {
    if s == [] then 0 else (if s[0] == c then 1 else 0) + CountOf(s[1..], c)
  }

  /** Splitting gives one piece more than there are separators. */
  lemma {:induction false} SplitCount(s: string, sep: char)
    ensures |Split(s, sep)| == CountOf(s, sep) + 1
    decreases |s|
  {
    if s != [] {
      SplitCount(s[1..], sep);
    }
  }

  /** `sep.join(parts)` in Python, `parts.join(sep)` in JavaScript. */
  function Join(sep: string, parts: seq<string>): string
    decreases |parts|
  {
    if |parts| == 0 then ""
    else if |parts| == 1 then parts[0]
    else parts[0] + sep + Join(sep, parts[1..])
  }

  /** Splitting and re-joining on the same character gives the string back. */
  lemma {:induction false} JoinSplit(s: string, sep: char)
    ensures Join([sep], Split(s, sep)) == s
    decreases |s|
  {
    if s != [] {
      var rest := Split(s[1..], sep);
      JoinSplit(s[1..], sep);
      if s[0] == sep {
        assert Split(s, sep) == [""] + rest;
        assert ([""] + rest)[1..] == rest;
      } else {
        var parts := [[s[0]] + rest[0]] + rest[1..];
        assert Split(s, sep) == parts;
        if |rest| > 1 {
          assert parts[1..] == rest[1..];
          assert Join([sep], rest) == rest[0] + [sep] + Join([sep], rest[1..]);
        }
      }
    }
  }

  /** A piece without the separator followed by the separator splits off
      as the first piece. */
  lemma {:induction false} SplitCons(a: string, sep: char, b: string)
    requires sep !in a
    ensures Split(a + [sep] + b, sep) == [a] + Split(b, sep)
    decreases |a|
  {
    if a == [] {
      assert a + [sep] + b == [sep] + b;
      assert ([sep] + b)[1..] == b;
    } else {
      assert (a + [sep] + b)[1..] == a[1..] + [sep] + b;
      SplitCons(a[1..], sep, b);
      assert [a[0]] + a[1..] == a;
    }
  }

  /** A string without the separator is a single piece. */
  lemma {:induction false} SplitNoSep(a: string, sep: char)
    requires sep !in a
    ensures Split(a, sep) == [a]
    decreases |a|
  {
    if a != [] {
      SplitNoSep(a[1..], sep);
      assert [a[0]] + a[1..] == a;
    }
  }

  /** Leading characters satisfying `isSpace` removed: what is left is a
      suffix that does not start with a space. */
  function TrimStart(s: string, isSpace: char -> bool): (r: string)
    ensures |r| <= |s| && r == s[|s| - |r|..]
    ensures r != [] ==> !isSpace(r[0])
    decreases |s|
  {
    if s != [] && isSpace(s[0]) then TrimStart(s[1..], isSpace) else s
  }

  /** What `TrimStart` cuts off is all space. */
  lemma {:induction false} TrimStartCut(s: string, isSpace: char -> bool)
    ensures AllSpace(s[..|s| - |TrimStart(s, isSpace)|], isSpace)
    decreases |s|
  {
    if s != [] && isSpace(s[0]) {
      TrimStartCut(s[1..], isSpace);
      var n := |s| - |TrimStart(s, isSpace)|;
      forall j | 0 <= j < n ensures isSpace(s[..n][j]) {
        if j > 0 {
          assert s[..n][j] == s[1..][..n - 1][j - 1];
        }
      }
    }
  }

  /** Trailing characters satisfying `isSpace` removed: what is left is a
      prefix that does not end with a space. */
  function TrimEnd(s: string, isSpace: char -> bool): (r: string)
    ensures |r| <= |s| && r == s[..|r|]
    ensures r != [] ==> !isSpace(r[|r| - 1])
    decreases |s|
  {
    if s != [] && isSpace(s[|s| - 1]) then TrimEnd(s[..|s| - 1], isSpace) else s
  }

  /** What `TrimEnd` cuts off is all space. */
  lemma {:induction false} TrimEndCut(s: string, isSpace: char -> bool)
    ensures AllSpace(s[|TrimEnd(s, isSpace)|..], isSpace)
    decreases |s|
  {
    if s != [] && isSpace(s[|s| - 1]) {
      var p := s[..|s| - 1];
      TrimEndCut(p, isSpace);
      var n := |TrimEnd(s, isSpace)|;
      forall j | 0 <= j < |s| - n ensures isSpace(s[n..][j]) {
        if n + j < |s| - 1 {
          assert s[n..][j] == p[n..][j];
        }
      }
    }
  }

  /** Both ends trimmed: neither end of the result is a space. */
  function Trim(s: string, isSpace: char -> bool): (r: string)
    ensures |r| <= |s|
    ensures r != [] ==> !isSpace(r[0]) && !isSpace(r[|r| - 1])
  {
    TrimEnd(TrimStart(s, isSpace), isSpace)
  }

  /** What trimming cuts off: the leading spaces (what `TrimStart` drops)
      and, after the kept part, only spaces again. */
  lemma TrimFactor(s: string, isSpace: char -> bool)
    ensures |s| - |TrimStart(s, isSpace)| + |Trim(s, isSpace)| <= |s|
    ensures AllSpace(s[..|s| - |TrimStart(s, isSpace)|], isSpace)
    ensures AllSpace(s[|s| - |TrimStart(s, isSpace)| + |Trim(s, isSpace)|..], isSpace)
  {
    TrimStartCut(s, isSpace);
    var t := TrimStart(s, isSpace);
    TrimEndCut(t, isSpace);
    TrimTail(s, t, TrimEnd(t, isSpace), isSpace);
  }

  /** The tail of a suffix `t` of `s` after a prefix `r` of `t` is the tail
      of `s` after that factor. */
  lemma TrimTail(s: string, t: string, r: string, isSpace: char -> bool)
    requires |t| <= |s| && t == s[|s| - |t|..]
    requires |r| <= |t|
    requires AllSpace(t[|r|..], isSpace)
    ensures AllSpace(s[|s| - |t| + |r|..], isSpace)
  {
    var i := |s| - |t|;
    assert s[i + |r|..] == t[|r|..];
  }

  /** Python's `s.strip()`. */
  function PyStrip(s: string): string {
    Trim(s, IsPySpace)
  }

  /** JavaScript's `s.trim()`. */
  function JsTrim(s: string): (r: string)
    ensures r != [] ==> !IsJsSpace(r[0]) && !IsJsSpace(r[|r| - 1])
    ensures |r| <= |s|
  {
    Trim(s, IsJsSpace)
  }

  /** A string trims to nothing exactly when it is all space. */
  lemma TrimEmptyIffAllSpace(s: string, isSpace: char -> bool)
    ensures Trim(s, isSpace) == "" <==> AllSpace(s, isSpace)
  {
    var t := TrimStart(s, isSpace);
    var i := |s| - |t|;
    TrimStartCut(s, isSpace);
    TrimEndCut(t, isSpace);
    if Trim(s, isSpace) == "" {
      forall j | 0 <= j < |s| ensures isSpace(s[j]) {
        assert s[j] == s[..i][j];
      }
    } else if AllSpace(s, isSpace) {
      TrimStartAllSpace(s, isSpace);
    }
  }

  /** Trimming the front of an all-space string leaves nothing. */
  lemma {:induction false} TrimStartAllSpace(s: string, isSpace: char -> bool)
    requires AllSpace(s, isSpace)
    ensures TrimStart(s, isSpace) == ""
    decreases |s|
  {
    if s != [] {
      assert AllSpace(s[1..], isSpace) by {
        forall j | 0 <= j < |s[1..]| ensures isSpace(s[1..][j]) {
          assert s[1..][j] == s[j + 1];
        }
      }
      TrimStartAllSpace(s[1..], isSpace);
    }
  }

  function Digit(d: nat): (c: char)
    requires d < 10
    ensures '0' <= c <= '9'
  {
    ['0', '1', '2', '3', '4', '5', '6', '7', '8', '9'][d]
  }

  predicate IsDigits(s: string) {
    forall i :: 0 <= i < |s| ==> '0' <= s[i] <= '9'
  }

  /** The number a string of decimal digits denotes. */
  function DecimalValue(s: string): nat
    requires IsDigits(s)
    decreases |s|
  {
    if s == [] then 0
    else DecimalValue(s[..|s| - 1]) * 10 + ((s[|s| - 1] as int) - ('0' as int))
  }

  /** Decimal digits of `n` without leading zeros, as Python's `str(n)` and
      JavaScript's `${n}` print a non-negative integer. */
  function NatToString(n: nat): (r: string)
    ensures r != [] && IsDigits(r)
    ensures |r| > 1 ==> r[0] != '0'
    decreases n
  {
    if n < 10 then [Digit(n)] else NatToString(n / 10) + [Digit(n % 10)]
  }

  /** Rendering a number in decimal and reading it back gives the number. */
  lemma {:induction false} NatToStringRoundTrip(n: nat)
    ensures DecimalValue(NatToString(n)) == n
    decreases n
  {
    if n >= 10 {
      NatToStringRoundTrip(n / 10);
      var s := NatToString(n);
      assert s[..|s| - 1] == NatToString(n / 10);
    }
  }

  /** Different numbers render differently. */
  lemma NatToStringInjective(m: nat, n: nat)
    requires m != n
    ensures NatToString(m) != NatToString(n)
  {
    NatToStringRoundTrip(m);
    NatToStringRoundTrip(n);
  }

  /** `str(i)` / `${i}` for an integer, with a minus sign when negative. */
  function IntToString(i: int): (r: string)
    ensures i >= 0 ==> r == NatToString(i)
    ensures i < 0 ==> r == "-" + NatToString(-i)
  {
    if i < 0 then "-" + NatToString(-i) else NatToString(i)
  }

  /** Different integers render differently. */
  lemma IntToStringInjective(i: int, j: int)
    requires i != j
    ensures IntToString(i) != IntToString(j)
  {
    if i >= 0 && j >= 0 {
      NatToStringInjective(i, j);
    } else if i < 0 && j < 0 {
      NegativeInjective(-i, -j);
    } else if i < 0 {
      SignNotDigit(-i, j);
    } else {
      SignNotDigit(-j, i);
    }
  }

  lemma NegativeInjective(m: nat, n: nat)
    requires m != n
    ensures "-" + NatToString(m) != "-" + NatToString(n)
  {
    NatToStringInjective(m, n);
    assert ("-" + NatToString(m))[1..] == NatToString(m);
    assert ("-" + NatToString(n))[1..] == NatToString(n);
  }

  lemma SignNotDigit(m: nat, n: nat)
    ensures "-" + NatToString(m) != NatToString(n)
  {
    assert ("-" + NatToString(m))[0] == '-';
    assert '0' <= NatToString(n)[0] <= '9';
  }

  /** The order SQLite's BINARY collation puts on text: lexicographic by code
      point (byte-wise on UTF-8, which orders code points the same way). */
  predicate StrLe(a: string, b: string)
    decreases |a|
  {
    a == [] || (b != [] && (a[0] < b[0] || (a[0] == b[0] && StrLe(a[1..], b[1..]))))
  }

  lemma {:induction false} StrLeTotal(a: string, b: string)
    ensures StrLe(a, b) || StrLe(b, a)
    decreases |a|
  {
    if a != [] && b != [] && a[0] == b[0] {
      StrLeTotal(a[1..], b[1..]);
    }
  }

  lemma {:induction false} StrLeTransitive(a: string, b: string, c: string)
    requires StrLe(a, b) && StrLe(b, c)
    ensures StrLe(a, c)
    decreases |a|
  {
    if a != [] && a[0] == b[0] && b[0] == c[0] {
      StrLeTransitive(a[1..], b[1..], c[1..]);
    }
  }
}
