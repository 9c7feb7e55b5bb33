/**
 * JavaScript string primitives the core relies on: the `\s` character class,
 * `String.prototype.trim`, `split` on one character and `endsWith`, and the
 * decimal reading of a run of ASCII digits done by `parseInt(…, 10)`.
 */
module Text {

  /** The WhiteSpace and LineTerminator code points of ECMAScript: what `\s` matches and `trim()` removes. */
  predicate IsJsWhitespace(c: char) {
    || c == '\t' || c == '\n' || c == '\U{B}' || c == '\U{C}' || c == '\r' || c == ' '
    || c == '\U{A0}' || c == '\U{1680}' || ('\U{2000}' <= c <= '\U{200A}')
    || c == '\U{2028}' || c == '\U{2029}' || c == '\U{202F}' || c == '\U{205F}'
    || c == '\U{3000}' || c == '\U{FEFF}'
  }

  /** What `\d` matches without the `u` flag: the ten ASCII digits only. */
  predicate IsDigit(c: char) {
    '0' <= c <= '9'
  }

  predicate AllDigits(s: string) {
    forall k :: 0 <= k < |s| ==> IsDigit(s[k])
  }

  /** Length of the longest prefix of `s` whose characters all satisfy `p`. */
  function LeadingSpan(s: string, p: char -> bool): (n: nat)
    ensures n <= |s|
    ensures forall k :: 0 <= k < n ==> p(s[k])
    ensures n < |s| ==> !p(s[n])
  {
    if s == [] || !p(s[0]) then 0 else 1 + LeadingSpan(s[1..], p)
  }

  /** The length of the leading run is determined by where the first character outside `p` stands. */
  lemma {:induction false} LeadingSpanIs(s: string, p: char -> bool, m: nat)
    requires m <= |s|
    requires forall k :: 0 <= k < m ==> p(s[k])
    requires m < |s| ==> !p(s[m])
    ensures LeadingSpan(s, p) == m
  {
    if m > 0 {
      LeadingSpanIs(s[1..], p, m - 1);
    }
  }

  /** The run of `p`-characters that starts at index `n`: all of them satisfy `p`, and the character after it does not. */
  lemma LeadingSpanFrom(s: string, n: nat, p: char -> bool)
    requires n <= |s|
    ensures var w := n + LeadingSpan(s[n..], p);
      && w <= |s|
      && (forall k :: n <= k < w ==> p(s[k]))
      && (w < |s| ==> !p(s[w]))
  {
    var w := n + LeadingSpan(s[n..], p);
    forall k | n <= k < w ensures p(s[k]) {
      assert s[k] == s[n..][k - n];
    }
    if w < |s| {
      assert s[w] == s[n..][w - n];
    }
  }

  /** Start of the longest suffix of `s` whose characters all satisfy `p`. */
  function TrailingStart(s: string, p: char -> bool): (n: nat)
    ensures n <= |s|
    ensures forall k :: n <= k < |s| ==> p(s[k])
    ensures 0 < n ==> !p(s[n - 1])
  {
    if s == [] || !p(s[|s| - 1]) then |s| else TrailingStart(s[..|s| - 1], p)
  }

  /**
   * `r` is what is left of `s` once its first `i` characters, all satisfying
   * `left`, and everything after `r`, all satisfying `right`, are cut off.
   */
  predicate StrippedAt(s: string, r: string, i: int, left: char -> bool, right: char -> bool) {
    && 0 <= i <= |s| - |r|
    && s[i..i + |r|] == r
    && (forall k :: 0 <= k < i ==> left(s[k]))
    && (forall k :: i + |r| <= k < |s| ==> right(s[k]))
  }

  /** `String.prototype.trim`: drops leading and trailing JavaScript whitespace. */
  function Trim(s: string): (r: string)
    ensures exists i :: StrippedAt(s, r, i, IsJsWhitespace, IsJsWhitespace)
    ensures r != [] ==> !IsJsWhitespace(r[0]) && !IsJsWhitespace(r[|r| - 1])
  {
    var i := LeadingSpan(s, IsJsWhitespace);
    var t := s[i..];
    var j := TrailingStart(t, IsJsWhitespace);
    assert s[i..i + j] == t[..j];
    assert StrippedAt(s, t[..j], i, IsJsWhitespace, IsJsWhitespace);
    t[..j]
  }

  /** A string that neither starts nor ends with whitespace is its own trim. */
  lemma TrimUnchanged(s: string)
    requires s != [] ==> !IsJsWhitespace(s[0]) && !IsJsWhitespace(s[|s| - 1])
    ensures Trim(s) == s
  {
    var r := Trim(s);
    var i :| StrippedAt(s, r, i, IsJsWhitespace, IsJsWhitespace);
  }

  /** Trimming keeps a first character that is not whitespace. */
  lemma TrimKeepsFirst(s: string)
    requires s != [] && !IsJsWhitespace(s[0])
    ensures Trim(s) != [] && Trim(s)[0] == s[0]
  {
    var r := Trim(s);
    var i :| StrippedAt(s, r, i, IsJsWhitespace, IsJsWhitespace);
  }

  /**
   * `String.prototype.toLowerCase`, on the characters that can lower-case into
   * `[a-z]`: the ASCII capitals and KELVIN SIGN (U+212A, which becomes `k`).
   * Every other character is kept as it is.
   */
  function LowerChar(c: char): (l: char)
    ensures 'a' <= l <= 'z' <==> ('a' <= c <= 'z' || 'A' <= c <= 'Z' || c == '\U{212A}')
    ensures IsDigit(l) <==> IsDigit(c)
    ensures IsJsWhitespace(l) <==> IsJsWhitespace(c)
  {
    if 'A' <= c <= 'Z' then (c as int + 32) as char
    else if c == '\U{212A}' then 'k'
    else c
  }

  function LowerCase(s: string): (r: string)
    ensures |r| == |s|
    ensures forall k :: 0 <= k < |s| ==> r[k] == LowerChar(s[k])
  {
    if s == [] then [] else [LowerChar(s[0])] + LowerCase(s[1..])
  }

  predicate EndsWith(s: string, suffix: string) {
    |suffix| <= |s| && s[|s| - |suffix|..] == suffix
  }

  /**
   * A string ending in `t`, with `c` right before it unless `t` is all of it,
   * ends in a suffix without `c` exactly when `t` does.
   */
  lemma EndsWithAfter(s: string, t: string, c: char, suffix: string)
    requires |t| <= |s| && s[|s| - |t|..] == t
    requires |t| < |s| ==> s[|s| - |t| - 1] == c
    requires c !in suffix
    ensures EndsWith(s, suffix) <==> EndsWith(t, suffix)
  {
    if |suffix| <= |t| {
      EndsWithTail(s, t, suffix);
    } else if |t| < |s| {
      NotEndsWithAfter(s, t, suffix);
    }
  }

  /** Whether a string ends in a suffix is decided by any longer tail of it. */
  lemma EndsWithTail(s: string, t: string, suffix: string)
    requires |t| <= |s| && s[|s| - |t|..] == t
    requires |suffix| <= |t|
    ensures EndsWith(s, suffix) <==> EndsWith(t, suffix)
  {
    assert s[|s| - |suffix|..] == t[|t| - |suffix|..];
  }

  /** A string whose tail shorter than the suffix follows a character the suffix lacks does not end in it. */
  lemma NotEndsWithAfter(s: string, t: string, suffix: string)
    requires |t| < |suffix| && |t| < |s| && s[|s| - |t|..] == t
    requires s[|s| - |t| - 1] !in suffix
    ensures !EndsWith(s, suffix)
  {
    if |suffix| <= |s| {
      var i := |s| - |t| - 1 - (|s| - |suffix|);
      assert s[|s| - |suffix|..][i] == s[|s| - |t| - 1];
    }
  }

  /** `s.split(sep)` for a one-character separator: the maximal runs between separators, `[""]` for `""`. */
  function Split(s: string, sep: char): (parts: seq<string>)
    ensures |parts| >= 1
    ensures forall k :: 0 <= k < |parts| ==> sep !in parts[k]
  {
    if s == [] then [""]
    else
      var rest := Split(s[1..], sep);
      if s[0] == sep then [""] + rest else [[s[0]] + rest[0]] + rest[1..]
  }

  /** `parts.join(sep)`. */
  function JoinWith(parts: seq<string>, sep: string): string {
    if parts == [] then ""
    else if |parts| == 1 then parts[0]
    else parts[0] + sep + JoinWith(parts[1..], sep)
  }

  /** Joining the pieces of a split with the separator gives the string back. */
  lemma {:induction false} JoinSplit(s: string, sep: char)
    ensures JoinWith(Split(s, sep), [sep]) == s
  {
    if s != [] {
      var rest := Split(s[1..], sep);
      JoinSplit(s[1..], sep);
      if s[0] == sep {
        assert Split(s, sep) == [""] + rest;
        assert JoinWith([""] + rest, [sep]) == "" + [sep] + JoinWith(rest, [sep]);
      } else {
        JoinConsFirst(s[0], rest, [sep]);
      }
    }
  }

  /** Prepending a character to the first piece prepends it to the joined string. */
  lemma JoinConsFirst(c: char, parts: seq<string>, sep: string)
    requires |parts| >= 1
    ensures JoinWith([[c] + parts[0]] + parts[1..], sep) == [c] + JoinWith(parts, sep)
  {
    var ps := [[c] + parts[0]] + parts[1..];
    if |parts| > 1 {
      assert ps[1..] == parts[1..];
    }
  }

  /** Splitting a join of separator-free pieces gives the pieces back. */
  lemma {:induction false} SplitJoin(parts: seq<string>, sep: char)
    requires |parts| >= 1
    requires forall k :: 0 <= k < |parts| ==> sep !in parts[k]
    ensures Split(JoinWith(parts, [sep]), sep) == parts
  {
    if |parts| == 1 {
      SplitNoSep(parts[0], sep);
    } else {
      SplitJoin(parts[1..], sep);
      SplitPrefix(parts[0], JoinWith(parts[1..], [sep]), sep);
      assert parts == [parts[0]] + parts[1..];
    }
  }

  lemma {:induction false} SplitNoSep(s: string, sep: char)
    requires sep !in s
    ensures Split(s, sep) == [s]
  {
    if s != [] {
      SplitNoSep(s[1..], sep);
      assert [s[0]] + s[1..] == s;
    }
  }

  /** A separator-free head followed by a separator becomes the first piece. */
  lemma {:induction false} SplitPrefix(head: string, tail: string, sep: char)
    requires sep !in head
    ensures Split(head + [sep] + tail, sep) == [head] + Split(tail, sep)
  {
    var s := head + [sep] + tail;
    if head == [] {
      assert s[1..] == tail;
    } else {
      assert s[1..] == head[1..] + [sep] + tail;
      SplitPrefix(head[1..], tail, sep);
      assert [head[0]] + head[1..] == head;
    }
  }

  /** A separator between two strings splits exactly there: the pieces of each side, side by side. */
  lemma {:induction false} SplitConcat(a: string, b: string, sep: char)
    ensures Split(a + [sep] + b, sep) == Split(a, sep) + Split(b, sep)
  {
    var s := a + [sep] + b;
    if a == [] {
      assert s[1..] == b;
    } else {
      assert s[1..] == a[1..] + [sep] + b;
      SplitConcat(a[1..], b, sep);
    }
  }

  /** Joining two non-empty lists of pieces puts one separator between the two joins. */
  lemma {:induction false} JoinWithConcat(p: seq<string>, q: seq<string>, sep: string)
    requires |p| >= 1 && |q| >= 1
    ensures JoinWith(p + q, sep) == JoinWith(p, sep) + sep + JoinWith(q, sep)
  {
    assert (p + q)[0] == p[0];
    if |p| == 1 {
      assert (p + q)[1..] == q;
    } else {
      assert (p + q)[1..] == p[1..] + q;
      JoinWithConcat(p[1..], q, sep);
    }
  }

  /** A join starts with the first character of its first piece. */
  lemma JoinWithFirst(parts: seq<string>, sep: string)
    requires |parts| >= 1 && parts[0] != []
    ensures JoinWith(parts, sep) != [] && JoinWith(parts, sep)[0] == parts[0][0]
  {
  }

  /** A join ends with the last character of its last piece. */
  lemma {:induction false} JoinWithLast(parts: seq<string>, sep: string)
    requires |parts| >= 1 && parts[|parts| - 1] != []
    ensures JoinWith(parts, sep) != []
    ensures JoinWith(parts, sep)[|JoinWith(parts, sep)| - 1] == parts[|parts| - 1][|parts[|parts| - 1]| - 1]
  {
    if |parts| > 1 {
      JoinWithLast(parts[1..], sep);
    }
  }

  /** The value of a digit character. */
  function DigitValue(c: char): (d: nat)
    requires IsDigit(c)
    ensures d < 10
  {
    c as int - '0' as int
  }

  /** The digit character of a value below ten. */
  function DigitChar(d: nat): (c: char)
    requires d < 10
    ensures IsDigit(c) && DigitValue(c) == d
  {
    ('0' as int + d) as char
  }

  /** `parseInt(ds, 10)` on a string of ASCII digits, as an unbounded integer. */
  function DecimalValue(ds: string): nat
    requires AllDigits(ds)
  {
    if ds == [] then 0 else DecimalValue(ds[..|ds| - 1]) * 10 + DigitValue(ds[|ds| - 1])
  }

  /** The shortest decimal spelling of `n`, as `String(n)` writes it. */
  function NatToDecimal(n: nat): (ds: string)
    ensures ds != [] && AllDigits(ds)
  {
    if n < 10 then [DigitChar(n)] else NatToDecimal(n / 10) + [DigitChar(n % 10)]
  }

  /** Reading back the decimal spelling of a number gives the number. */
  lemma {:induction false} DecimalRoundTrip(n: nat)
    ensures DecimalValue(NatToDecimal(n)) == n
  {
    var ds := NatToDecimal(n);
    if n < 10 {
      assert ds[..0] == [];
    } else {
      DecimalRoundTrip(n / 10);
      assert ds[..|ds| - 1] == NatToDecimal(n / 10);
    }
  }
}
