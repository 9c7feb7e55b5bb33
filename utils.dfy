/**
 * The string, list and record helpers of src/utils.ts: character-set trimming,
 * glob-pattern normalisation, size strings, partitioning, nil filtering and
 * keyed lookup with a fallback.
 */
module Utils {
  import opened Wrappers
  import opened Text

  // ---------------------------------------------------------------------------
  // Sequences filtered by a predicate (`Array.prototype.filter` and its complement)
  // ---------------------------------------------------------------------------

  /** The elements of `s` satisfying `p`, in their original order. */
  function Select<T>(s: seq<T>, p: T -> bool): seq<T> {
    if s == [] then [] else Select(s[..|s| - 1], p) + (if p(s[|s| - 1]) then [s[|s| - 1]] else [])
  }

  /** The elements of `s` not satisfying `p`, in their original order. */
  function Reject<T>(s: seq<T>, p: T -> bool): seq<T> {
    if s == [] then [] else Reject(s[..|s| - 1], p) + (if p(s[|s| - 1]) then [] else [s[|s| - 1]])
  }

  lemma {:induction false} SelectAppend<T>(a: seq<T>, b: seq<T>, p: T -> bool)
    ensures Select(a + b, p) == Select(a, p) + Select(b, p)
  {
    if b != [] {
      var b' := b[..|b| - 1];
      SelectAppend(a, b', p);
      assert (a + b)[..|a + b| - 1] == a + b';
    } else {
      assert a + b == a;
    }
  }

  lemma {:induction false} SelectAll<T>(s: seq<T>, p: T -> bool)
    requires forall k :: 0 <= k < |s| ==> p(s[k])
    ensures Select(s, p) == s
  {
    if s != [] {
      SelectAll(s[..|s| - 1], p);
    }
  }

  lemma {:induction false} SelectSatisfies<T>(s: seq<T>, p: T -> bool)
    ensures forall k :: 0 <= k < |Select(s, p)| ==> p(Select(s, p)[k])
  {
    if s != [] {
      SelectSatisfies(s[..|s| - 1], p);
    }
  }

  lemma {:induction false} RejectFails<T>(s: seq<T>, p: T -> bool)
    ensures forall k :: 0 <= k < |Reject(s, p)| ==> !p(Reject(s, p)[k])
  {
    if s != [] {
      RejectFails(s[..|s| - 1], p);
    }
  }

  lemma {:induction false} SelectMembers<T>(s: seq<T>, p: T -> bool)
    ensures forall x :: x in Select(s, p) <==> x in s && p(x)
  {
    if s != [] {
      SelectMembers(s[..|s| - 1], p);
      assert s == s[..|s| - 1] + [s[|s| - 1]];
    }
  }

  /** Filtering never lengthens a sequence. */
  lemma {:induction false} SelectShorter<T>(s: seq<T>, p: T -> bool)
    ensures |Select(s, p)| <= |s|
  {
    if s != [] {
      SelectShorter(s[..|s| - 1], p);
    }
  }

  /** Whatever the predicate, the two sides of a partition together hold each element exactly once. */
  lemma {:induction false} SelectRejectSplit<T>(s: seq<T>, p: T -> bool)
    ensures |Select(s, p)| + |Reject(s, p)| == |s|
    ensures multiset(Select(s, p)) + multiset(Reject(s, p)) == multiset(s)
  {
    if s != [] {
      var s', x := s[..|s| - 1], s[|s| - 1];
      SelectRejectSplit(s', p);
      assert s == s' + [x];
      if p(x) {
        assert Select(s, p) == Select(s', p) + [x];
        assert Reject(s, p) == Reject(s', p);
      } else {
        assert Select(s, p) == Select(s', p);
        assert Reject(s, p) == Reject(s', p) + [x];
      }
    }
  }

  // ---------------------------------------------------------------------------
  // trimChar and normalizePattern
  // ---------------------------------------------------------------------------

  /**
   * The second argument of `trimChar`: one character set for both ends, or a
   * pair whose sides may be `false`. An empty set is falsy in JavaScript and
   * switches its side off exactly like `false`.
   */
  datatype TrimArg = Both(chars: string) | Sides(left: Option<string>, right: Option<string>)

  function LeftChars(arg: TrimArg): string {
    match arg
    case Both(cs) => cs
    case Sides(l, _) => if l.Some? then l.value else ""
  }

  function RightChars(arg: TrimArg): string {
    match arg
    case Both(cs) => cs
    case Sides(_, r) => if r.Some? then r.value else ""
  }

  /** A character set, escaped into a regular-expression class, as a predicate on characters. */
  function Member(chars: string): char -> bool {
    c => c in chars
  }

  /**
   * What trimming promises: `r` is `s` with a prefix made only of left-set
   * characters and a suffix made only of right-set characters cut off, and
   * neither end of `r` could have been cut further.
   */
  ghost predicate IsTrimmed(s: string, r: string, left: string, right: string) {
    && (exists i :: StrippedAt(s, r, i, Member(left), Member(right)))
    && (r != [] ==> r[0] !in left && r[|r| - 1] !in right)
  }

  /**
   * `trimChar` as evidently intended: removes the maximal run of left-set
   * characters at the start, then the maximal run of right-set characters at
   * the end of what is left. The regular expression's class treats the argument
   * as a set of characters, never as a substring.
   */
  function TrimChar(s: string, arg: TrimArg): (r: string)
    ensures IsTrimmed(s, r, LeftChars(arg), RightChars(arg))
  {
    var left, right := LeftChars(arg), RightChars(arg);
    var i := if left == [] then 0 else LeadingSpan(s, Member(left));
    var t := s[i..];
    var j := if right == [] then |t| else TrailingStart(t, Member(right));
    assert s[i..i + j] == t[..j];
    assert StrippedAt(s, t[..j], i, Member(left), Member(right));
    t[..j]
  }

  /** The trimming promise determines the result: at most one string meets it. */
  lemma TrimmedUnique(s: string, r1: string, r2: string, left: string, right: string)
    requires IsTrimmed(s, r1, left, right) && IsTrimmed(s, r2, left, right)
    ensures r1 == r2
  {
    var i1 :| StrippedAt(s, r1, i1, Member(left), Member(right));
    var i2 :| StrippedAt(s, r2, i2, Member(left), Member(right));
    var e1, e2 := i1 + |r1|, i2 + |r2|;
    assert r1 != [] ==> !Member(left)(s[i1]) && !Member(right)(s[e1 - 1]) by {
      if r1 != [] { assert s[i1] == r1[0] && s[e1 - 1] == r1[|r1| - 1]; }
    }
    assert r2 != [] ==> !Member(left)(s[i2]) && !Member(right)(s[e2 - 1]) by {
      if r2 != [] { assert s[i2] == r2[0] && s[e2 - 1] == r2[|r2| - 1]; }
    }
  }

  /**
   * `trimChar` as written. The pattern is `^[L]*|[R]*$` with the global flag;
   * when the left class is active and the string does not start with one of its
   * characters, the first alternative matches the empty string at index 0 and
   * the search resumes at index 1, so the right-hand run is looked for in
   * `s[1..]` only.
   */
  function TrimCharAsWritten(s: string, arg: TrimArg): (r: string)
    ensures |r| <= |s|
  {
    s[WrittenStart(s, arg)..WrittenEnd(s, arg)]
  }

  /** Where the code as written starts the result: after the left-set run, if that side is active. */
  function WrittenStart(s: string, arg: TrimArg): (i: nat)
    ensures i <= |s|
  {
    if LeftChars(arg) == [] then 0 else LeadingSpan(s, Member(LeftChars(arg)))
  }

  /** Where the code as written ends the result: before the right-set run found from the resumed search position. */
  function WrittenEnd(s: string, arg: TrimArg): (j: nat)
    ensures WrittenStart(s, arg) <= j <= |s|
  {
    var i := WrittenStart(s, arg);
    var from := if LeftChars(arg) != [] && i == 0 && s != [] then 1 else i;
    if RightChars(arg) == [] then |s| else from + TrailingStart(s[from..], Member(RightChars(arg)))
  }

  /** Where the quirk shows: an all-`/` string that does not start with a left-set character keeps its first `/`. */
  lemma TrimCharAsWrittenKeepsFirst()
    ensures TrimCharAsWritten("//", Sides(Some("x"), Some("/"))) == "/"
  {
    var arg := Sides(Some("x"), Some("/"));
    assert WrittenStart("//", arg) == 0 by {
      assert !Member("x")('/');
      assert LeadingSpan("//", Member("x")) == 0;
    }
    assert "//"[1..] == "/";
    assert TrailingStart("/", Member("/")) == 0 by {
      assert Member("/")('/');
      assert TrailingStart("/"[..0], Member("/")) == 0;
    }
  }

  /** The intended trimming removes every `/` of the same string. */
  lemma TrimCharStripsAll()
    ensures TrimChar("//", Sides(Some("x"), Some("/"))) == ""
  {
    var r := TrimChar("//", Sides(Some("x"), Some("/")));
    assert IsTrimmed("//", "", "x", "/") by {
      assert !Member("x")('/') && Member("/")('/');
      assert StrippedAt("//", "", 0, Member("x"), Member("/"));
    }
    TrimmedUnique("//", r, "", "x", "/");
  }

  /**
   * Outside that one shape (left set active, the string not starting with a
   * left-set character and made only of right-set characters) the code as
   * written and the intended trimming agree.
   */
  lemma TrimCharAsWrittenAgrees(s: string, arg: TrimArg)
    requires LeftChars(arg) == [] || s == [] || s[0] in LeftChars(arg)
             || exists k :: 0 <= k < |s| && s[k] !in RightChars(arg)
    ensures TrimCharAsWritten(s, arg) == TrimChar(s, arg)
  {
    var left, right := LeftChars(arg), RightChars(arg);
    var r := TrimCharAsWritten(s, arg);
    var i, j := WrittenStart(s, arg), WrittenEnd(s, arg);
    LeadingRun(s, left);
    WrittenEndCut(s, arg);
    assert StrippedAt(s, r, i, Member(left), Member(right));
    assert IsTrimmed(s, r, left, right);
    TrimmedUnique(s, r, TrimChar(s, arg), left, right);
  }

  /** Outside the quirk the end cut is right: a right-set run follows it and could not be extended. */
  lemma WrittenEndCut(s: string, arg: TrimArg)
    requires LeftChars(arg) == [] || s == [] || s[0] in LeftChars(arg)
             || exists k :: 0 <= k < |s| && s[k] !in RightChars(arg)
    ensures forall k :: WrittenEnd(s, arg) <= k < |s| ==> s[k] in RightChars(arg)
    ensures WrittenStart(s, arg) < WrittenEnd(s, arg) ==> s[WrittenEnd(s, arg) - 1] !in RightChars(arg)
  {
    var i, j := WrittenStart(s, arg), WrittenEnd(s, arg);
    var right := RightChars(arg);
    var from := if LeftChars(arg) != [] && i == 0 && s != [] then 1 else i;
    if right != [] {
      TrailingRunFrom(s, from, right);
      if from != i && j == from {
        LeadingRun(s, LeftChars(arg));
        var k0 :| 0 <= k0 < |s| && s[k0] !in right;
        assert k0 == 0;
      }
    }
  }

  /** The left-hand run: all left-set characters, and the character after it is not one. */
  lemma LeadingRun(s: string, left: string)
    ensures var i := LeadingSpan(s, Member(left));
      (forall k :: 0 <= k < i ==> s[k] in left) && (i < |s| ==> s[i] !in left)
  {
  }

  /** The right-hand run looked for from index `from` on: all right-set characters, with none just before it. */
  lemma TrailingRunFrom(s: string, from: nat, right: string)
    requires from <= |s|
    ensures var j := from + TrailingStart(s[from..], Member(right));
      && j <= |s|
      && (forall k :: j <= k < |s| ==> s[k] in right)
      && (from < j ==> s[j - 1] !in right)
  {
    var t := TrailingStart(s[from..], Member(right));
    forall k | from + t <= k < |s| ensures s[k] in right {
      assert s[k] == s[from..][k - from];
    }
    if t > 0 {
      assert s[from + t - 1] == s[from..][t - 1];
    }
  }

  predicate IsGlobTail(c: char) {
    c == '/' || c == '*'
  }

  /** `r` is a prefix of `pattern`, what was removed is all `/` and `*`, and `r` does not end in either. */
  predicate IsNormalizationOf(pattern: string, r: string) {
    && |r| <= |pattern|
    && pattern[..|r|] == r
    && (forall k :: |r| <= k < |pattern| ==> IsGlobTail(pattern[k]))
    && (r != [] ==> !IsGlobTail(r[|r| - 1]))
  }

  /**
   * `normalizePattern`: trims trailing `/`, then any trailing mix of `/` and
   * `*`. The result is the input with its maximal tail of `/` and `*` removed;
   * the leading end is never touched.
   */
  function NormalizePattern(pattern: string): (r: string)
    ensures IsNormalizationOf(pattern, r)
  {
    var once := TrimChar(pattern, Sides(None, Some("/")));
    var r := TrimChar(once, Sides(None, Some("/*")));
    NormalizeSteps(pattern, once, r);
    r
  }

  lemma NormalizeSteps(pattern: string, once: string, r: string)
    requires IsTrimmed(pattern, once, "", "/")
    requires IsTrimmed(once, r, "", "/*")
    ensures IsNormalizationOf(pattern, r)
  {
    var i1 :| StrippedAt(pattern, once, i1, Member(""), Member("/"));
    var i2 :| StrippedAt(once, r, i2, Member(""), Member("/*"));
    assert pattern != [] ==> !Member("")(pattern[0]);
    assert once != [] ==> !Member("")(once[0]);
    assert pattern[..|once|] == once;
    assert once[..|r|] == r;
    forall k | |r| <= k < |pattern| ensures IsGlobTail(pattern[k]) {
      if k < |once| {
        assert Member("/*")(once[k]);
      } else {
        assert Member("/")(pattern[k]);
      }
    }
  }

  /** The normalisation of a pattern is unique: any string meeting its description is the result. */
  lemma NormalizationUnique(pattern: string, r: string)
    requires IsNormalizationOf(pattern, r)
    ensures NormalizePattern(pattern) == r
  {
    var n := NormalizePattern(pattern);
    assert r != [] ==> !IsGlobTail(pattern[|r| - 1]) by {
      if r != [] { assert r[|r| - 1] == pattern[|r| - 1]; }
    }
    assert n != [] ==> !IsGlobTail(pattern[|n| - 1]) by {
      if n != [] { assert n[|n| - 1] == pattern[|n| - 1]; }
    }
  }

  /** Normalising twice is normalising once. */
  lemma NormalizeIdempotent(pattern: string)
    ensures NormalizePattern(NormalizePattern(pattern)) == NormalizePattern(pattern)
  {
    var n := NormalizePattern(pattern);
    assert n[..|n|] == n;
    NormalizationUnique(n, n);
  }

  /** Appending any run of `/` and `*` to a pattern that does not end in one is undone by normalisation. */
  lemma NormalizeDropsGlobTail(p: string, tail: string)
    requires p == [] || !IsGlobTail(p[|p| - 1])
    requires forall k :: 0 <= k < |tail| ==> IsGlobTail(tail[k])
    ensures NormalizePattern(p + tail) == p
  {
    assert (p + tail)[..|p|] == p;
    forall k | |p| <= k < |p + tail| ensures IsGlobTail((p + tail)[k]) {
      assert (p + tail)[k] == tail[k - |p|];
    }
    NormalizationUnique(p + tail, p);
  }

  /** `patterns.map(normalizePattern)`. */
  function NormalizeAll(lines: seq<string>): (r: seq<string>)
    ensures |r| == |lines|
    ensures forall k :: 0 <= k < |r| ==> r[k] == NormalizePattern(lines[k])
  {
    if lines == [] then [] else [NormalizePattern(lines[0])] + NormalizeAll(lines[1..])
  }

  lemma NormalizeAllAppend(a: seq<string>, b: seq<string>)
    ensures NormalizeAll(a + b) == NormalizeAll(a) + NormalizeAll(b)
  {
  }

  /** Normalising a list of patterns twice is normalising it once. */
  lemma {:induction false} NormalizeAllIdempotent(patterns: seq<string>)
    ensures NormalizeAll(NormalizeAll(patterns)) == NormalizeAll(patterns)
  {
    var once := NormalizeAll(patterns);
    forall k | 0 <= k < |once| ensures NormalizePattern(once[k]) == once[k] {
      NormalizeIdempotent(patterns[k]);
    }
  }

  // ---------------------------------------------------------------------------
  // toBytes
  // ---------------------------------------------------------------------------

  /** The unit table of `toBytes`: exactly five keys, powers of 1024. */
  const Units: map<string, nat> := map[
    "b" := 1,
    "kb" := 1024,
    "mb" := 1024 * 1024,
    "gb" := 1024 * 1024 * 1024,
    "tb" := 1024 * 1024 * 1024 * 1024
  ]

  const InvalidSize := "Invalid size string"

  /** Every unit of the table is a non-empty run of lower-case ASCII letters. */
  lemma UnitsAreLetters(u: string)
    requires u in Units
    ensures u != [] && forall k :: 0 <= k < |u| ==> 'a' <= u[k] <= 'z'
  {
  }

  /**
   * A split of a lower-cased size string as `^(\d+)\s*([a-z]+)?$` reads it,
   * with the unit present and known: digits up to `n`, whitespace up to `w`,
   * then a unit of the table.
   */
  predicate SizeSplit(s: string, n: int, w: int) {
    && 0 < n <= w <= |s|
    && AllDigits(s[..n])
    && (forall k :: n <= k < w ==> IsJsWhitespace(s[k]))
    && s[w..] in Units
  }

  /** The lower-cased string has a split into digits, whitespace and a known unit. */
  ghost predicate IsSizeString(s: string) {
    exists n, w :: SizeSplit(s, n, w)
  }

  /**
   * `toBytes`: a decimal amount, optional whitespace and a case-insensitive
   * unit among b, kb, mb, gb, tb, giving the amount times the unit's size.
   * Anything else, a bare number included, is the error "Invalid size string".
   */
  function ToBytes(size: string): (r: Result<nat>)
    ensures r.Failure? ==> r.error == InvalidSize
  {
    ParseSize(LowerCase(size))
  }

  /** The matching step of `toBytes`, on the already lower-cased string. */
  function ParseSize(s: string): (r: Result<nat>)
    ensures r.Failure? ==> r.error == InvalidSize
  {
    var n := LeadingSpan(s, IsDigit);
    var w := n + LeadingSpan(s[n..], IsJsWhitespace);
    if n == 0 || s[w..] !in Units then Failure(InvalidSize)
    else
      Success(DecimalValue(s[..n]) * Units[s[w..]])
  }

  /** The run of digits that `toBytes` reads first. */
  lemma DigitsPrefix(s: string, n: nat)
    requires n == LeadingSpan(s, IsDigit)
    ensures AllDigits(s[..n])
  {
    forall k | 0 <= k < n ensures IsDigit(s[..n][k]) {
      assert s[..n][k] == s[k];
    }
  }

  /** Where a split puts its boundaries: a digit cannot follow the digits, whitespace cannot start the unit. */
  lemma SplitPoints(s: string, n: int, w: int)
    requires SizeSplit(s, n, w)
    ensures w < |s|
    ensures !IsDigit(s[n]) && !IsJsWhitespace(s[w])
    ensures forall k :: 0 <= k < n ==> IsDigit(s[k])
  {
    UnitsAreLetters(s[w..]);
    assert s[w] == s[w..][0];
    forall k | 0 <= k < n ensures IsDigit(s[k]) {
      assert s[k] == s[..n][k];
    }
  }

  /** The digits end where the first non-digit starts and the unit where the whitespace ends, so the split is forced. */
  lemma SizeSplitUnique(s: string, n: nat, w: nat)
    requires n == LeadingSpan(s, IsDigit)
    requires n <= w <= |s|
    requires forall k :: n <= k < w ==> IsJsWhitespace(s[k])
    requires w < |s| ==> !IsJsWhitespace(s[w])
    ensures forall n', w' :: SizeSplit(s, n', w') ==> n' == n && w' == w
  {
    forall n', w' | SizeSplit(s, n', w') ensures n' == n && w' == w {
      SplitPoints(s, n', w');
    }
  }

  /**
   * The regular expression's reading is forced: `toBytes` succeeds exactly
   * when the lower-cased string splits into digits, whitespace and a known
   * unit.
   */
  lemma ToBytesSucceeds(size: string)
    ensures ToBytes(size).Success? <==> IsSizeString(LowerCase(size))
  {
    var s := LowerCase(size);
    ParseSizeMeaning(s);
    assert ToBytes(size) == ParseSize(s);
  }

  /** Given the split of a size string, `toBytes` gives the amount times the unit's size. */
  lemma ToBytesValue(size: string, n: int, w: int)
    requires SizeSplit(LowerCase(size), n, w)
    ensures ToBytes(size) == Success(DecimalValue(LowerCase(size)[..n]) * Units[LowerCase(size)[w..]])
  {
    ParseSizeMeaning(LowerCase(size));
  }

  lemma ParseSizeMeaning(s: string)
    ensures ParseSize(s).Success? <==> IsSizeString(s)
    ensures forall n, w :: SizeSplit(s, n, w) ==> ParseSize(s) == Success(DecimalValue(s[..n]) * Units[s[w..]])
  {
    var n := LeadingSpan(s, IsDigit);
    var w := n + LeadingSpan(s[n..], IsJsWhitespace);
    LeadingSpanFrom(s, n, IsJsWhitespace);
    DigitsPrefix(s, n);
    SizeSplitUnique(s, n, w);
    if ParseSize(s).Success? {
      assert SizeSplit(s, n, w);
    }
  }

  /** A size string written as the decimal amount, some whitespace and a unit reads back as amount × unit size. */
  lemma SizeStringRoundTrip(amount: nat, gap: string, unit: string)
    requires forall k :: 0 <= k < |gap| ==> IsJsWhitespace(gap[k])
    requires unit in Units
    ensures ToBytes(NatToDecimal(amount) + gap + unit) == Success(amount * Units[unit])
  {
    var ds := NatToDecimal(amount);
    var size := ds + gap + unit;
    var s := LowerCase(size);
    UnitsAreLetters(unit);
    forall k | 0 <= k < |s| ensures s[k] == size[k] {
      if k < |ds| {
        assert IsDigit(size[k]);
      } else if k < |ds| + |gap| {
        assert size[k] == gap[k - |ds|];
      } else {
        assert size[k] == unit[k - |ds| - |gap|];
      }
    }
    assert s == size;
    assert s[..|ds|] == ds;
    assert s[|ds| + |gap|..] == unit;
    assert SizeSplit(s, |ds|, |ds| + |gap|);
    ToBytesValue(size, |ds|, |ds| + |gap|);
    DecimalRoundTrip(amount);
  }

  /** A bare number has no unit and is rejected, although the pattern makes the unit optional. */
  lemma BareNumberRejected(ds: string)
    requires AllDigits(ds)
    ensures ToBytes(ds) == Failure(InvalidSize)
  {
    var s := LowerCase(ds);
    forall w | 0 <= w <= |s| ensures s[w..] !in Units {
      if w < |s| {
        assert s[w..][0] == s[w] == LowerChar(ds[w]);
        assert IsDigit(s[w..][0]);
      }
    }
    ToBytesSucceeds(ds);
  }

  /** Upper- and lower-case spellings of a size string are read the same. */
  lemma ToBytesIgnoresCase(size: string)
    ensures ToBytes(LowerCase(size)) == ToBytes(size)
  {
    var s := LowerCase(size);
    forall k | 0 <= k < |s| ensures LowerChar(s[k]) == s[k] {
      assert s[k] == LowerChar(size[k]);
    }
    assert LowerCase(s) == s;
  }

  // ---------------------------------------------------------------------------
  // toBytes as written: the inherited `constructor` unit
  // ---------------------------------------------------------------------------

  /** A JavaScript number as `toBytes` can return it: a whole number of bytes, or `NaN`. */
  datatype JsNumber = Finite(value: nat) | NaN

  /**
   * The one property every plain object inherits whose name is a run of
   * lower-case letters. `units.constructor` is the `Object` function: truthy,
   * so the unit check lets it through, and an amount times it is `NaN`.
   */
  const InheritedUnit := "constructor"

  /**
   * `toBytes` as written: the unit is looked up on a plain object, so besides
   * the five units of the table the inherited `constructor` is found too, and
   * the result is then `NaN` instead of the error.
   */
  function ToBytesAsWritten(size: string): (r: Result<JsNumber>)
    ensures r.Failure? ==> r.error == InvalidSize
  {
    ParseSizeAsWritten(LowerCase(size))
  }

  /** The matching step of `toBytes` as written, on the already lower-cased string. */
  function ParseSizeAsWritten(s: string): (r: Result<JsNumber>)
    ensures r.Failure? ==> r.error == InvalidSize
  {
    var n := LeadingSpan(s, IsDigit);
    var w := n + LeadingSpan(s[n..], IsJsWhitespace);
    if n == 0 then Failure(InvalidSize)
    else if s[w..] in Units then Success(Finite(DecimalValue(s[..n]) * Units[s[w..]]))
    else if s[w..] == InheritedUnit then Success(NaN)
    else Failure(InvalidSize)
  }

  /**
   * Where the code as written and the intended reading differ: digits
   * followed by `constructor` are read as `NaN` instead of rejected.
   */
  lemma ConstructorUnitAsWritten(ds: string)
    requires ds != [] && AllDigits(ds)
    ensures ToBytesAsWritten(ds + InheritedUnit) == Success(NaN)
    ensures ToBytes(ds + InheritedUnit) == Failure(InvalidSize)
  {
    LetterUnitSplit(ds, InheritedUnit);
    var s := ds + InheritedUnit;
    assert InheritedUnit !in Units;
    assert ToBytesAsWritten(s) == ParseSizeAsWritten(s);
    assert ToBytes(s) == ParseSize(s);
  }

  /** Digits followed directly by a lower-case word: the digits are the amount and the word is the unit. */
  lemma LetterUnitSplit(ds: string, unit: string)
    requires ds != [] && AllDigits(ds)
    requires unit != [] && forall k :: 0 <= k < |unit| ==> 'a' <= unit[k] <= 'z'
    ensures var s := LowerCase(ds + unit);
      && s == ds + unit
      && LeadingSpan(s, IsDigit) == |ds|
      && LeadingSpan(s[|ds|..], IsJsWhitespace) == 0
      && s[|ds|..] == unit
  {
    var size := ds + unit;
    var s := LowerCase(size);
    forall k | 0 <= k < |s| ensures s[k] == size[k] {
      if k >= |ds| {
        assert size[k] == unit[k - |ds|];
      }
    }
    assert s == size;
    assert s[|ds|..] == unit;
    LeadingSpanIs(s, IsDigit, |ds|);
  }

  /**
   * Everywhere else the two agree: a size the intended reading accepts has
   * the same value as written, and one it rejects is rejected as written or
   * read as `NaN`.
   */
  lemma ToBytesAsWrittenAgrees(size: string)
    ensures ToBytes(size).Success? ==> ToBytesAsWritten(size) == Success(Finite(ToBytes(size).value))
    ensures ToBytes(size).Failure? ==> ToBytesAsWritten(size) in {Failure(InvalidSize), Success(NaN)}
    ensures ToBytesAsWritten(size) == Success(NaN) ==> ToBytes(size).Failure?
  {
  }

  // ---------------------------------------------------------------------------
  // partitionBy
  // ---------------------------------------------------------------------------

  /**
   * `partitionBy`: pushes each item onto the left list when the predicate
   * holds and onto the right list otherwise.
   */
  method PartitionBy<T>(items: seq<T>, pred: T -> bool) returns (left: seq<T>, right: seq<T>)
    ensures left == Select(items, pred) && right == Reject(items, pred)
    ensures |left| + |right| == |items|
    ensures multiset(left) + multiset(right) == multiset(items)
  {
    left, right := [], [];
    for i := 0 to |items|
      invariant left == Select(items[..i], pred)
      invariant right == Reject(items[..i], pred)
    {
      assert items[..i + 1][..i] == items[..i];
      if pred(items[i]) {
        left := left + [items[i]];
      } else {
        right := right + [items[i]];
      }
    }
    assert items[..|items|] == items;
    SelectRejectSplit(items, pred);
  }

  // ---------------------------------------------------------------------------
  // isNil, excludeNil, objectFilter
  // ---------------------------------------------------------------------------

  /** A JavaScript value as far as these helpers look at it: `undefined`, `null` or anything else. */
  datatype JsValue<+T> = Undefined | Null | Defined(value: T)

  /** `isNil`: true for `null` and `undefined`, false for every other value. */
  function IsNil<T>(v: JsValue<T>): (nil: bool)
    ensures nil <==> !v.Defined?
  {
    v.Null? || v.Undefined?
  }

  function IsPresent<T>(v: JsValue<T>): bool {
    !IsNil(v)
  }

  /** `excludeNil` on an array: the non-nil elements, in order. */
  function ExcludeNil<T>(xs: seq<JsValue<T>>): (r: seq<JsValue<T>>)
    ensures forall k :: 0 <= k < |r| ==> r[k].Defined?
    ensures |r| <= |xs|
  {
    SelectRejectSplit(xs, IsPresent);
    SelectSatisfies(xs, IsPresent);
    Select(xs, IsPresent)
  }

  /** `excludeNil` works element by element: it distributes over concatenation, dropping exactly the nil singletons. */
  lemma ExcludeNilConcat<T>(a: seq<JsValue<T>>, b: seq<JsValue<T>>)
    ensures ExcludeNil(a + b) == ExcludeNil(a) + ExcludeNil(b)
    ensures ExcludeNil<T>([Undefined]) == ExcludeNil<T>([Null]) == []
    ensures forall v: JsValue<T> :: v.Defined? ==> ExcludeNil([v]) == [v]
  {
    SelectAppend(a, b, IsPresent);
    var u: seq<JsValue<T>>, n: seq<JsValue<T>> := [Undefined], [Null];
    assert u[..0] == [] && n[..0] == [];
    forall v: JsValue<T> | v.Defined? ensures ExcludeNil([v]) == [v] {
      assert [v][..0] == [];
    }
  }

  /** An array without nils is returned unchanged; an array with a nil is not. */
  lemma ExcludeNilIdentity<T>(xs: seq<JsValue<T>>)
    ensures ExcludeNil(xs) == xs <==> forall k :: 0 <= k < |xs| ==> xs[k].Defined?
  {
    if forall k :: 0 <= k < |xs| ==> xs[k].Defined? {
      SelectAll(xs, IsPresent);
    }
  }

  /**
   * `objectFilter`: builds a new record by assigning onto an accumulator
   * every entry whose key and value satisfy the predicate.
   */
  method ObjectFilter<V>(source: map<string, V>, pred: (string, V) -> bool) returns (r: map<string, V>)
    ensures forall k :: k in r <==> k in source && pred(k, source[k])
    ensures forall k :: k in r ==> r[k] == source[k]
  {
    r := map[];
    var pending := source.Keys;
    while pending != {}
      invariant pending <= source.Keys
      invariant forall k :: k in r <==> k in source && k !in pending && pred(k, source[k])
      invariant forall k :: k in r ==> r[k] == source[k]
      decreases pending
    {
      var k :| k in pending;
      if pred(k, source[k]) {
        r := r[k := source[k]];
      }
      pending := pending - {k};
    }
  }

  /** `excludeNil` on a record: the entries whose value is neither `null` nor `undefined`. */
  method ExcludeNilRecord<V>(obj: map<string, JsValue<V>>) returns (r: map<string, JsValue<V>>)
    ensures forall k :: k in r <==> k in obj && obj[k].Defined?
    ensures forall k :: k in r ==> r[k] == obj[k]
  {
    r := ObjectFilter(obj, (_, v) => !IsNil(v));
  }

  // ---------------------------------------------------------------------------
  // pick
  // ---------------------------------------------------------------------------

  /**
   * Reading a property. The map stands for the whole property lookup,
   * inherited properties included; a key it does not hold reads as `undefined`.
   */
  function Get<V>(obj: map<string, JsValue<V>>, key: string): JsValue<V> {
    if key in obj then obj[key] else Undefined
  }

  /**
   * `pick`: the property when it is not `undefined` (`null` passes through),
   * otherwise the fallback when one is given (is not `undefined`), otherwise
   * the error "missing key <key>".
   */
  function Pick<V>(obj: map<string, JsValue<V>>, key: string, fallback: JsValue<V>): (r: Result<JsValue<V>>)
    ensures r.Failure? <==> Get(obj, key).Undefined? && fallback.Undefined?
    ensures r.Failure? ==> r.error == "missing key " + key
    ensures r.Success? ==> !r.value.Undefined?
    ensures r.Success? && !Get(obj, key).Undefined? ==> r.value == Get(obj, key)
    ensures r.Success? && Get(obj, key).Undefined? ==> r.value == fallback
  {
    var value := Get(obj, key);
    if !value.Undefined? then Success(value)
    else if !fallback.Undefined? then Success(fallback)
    else Failure("missing key " + key)
  }
}
