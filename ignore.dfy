/**
 * src/ignore.ts: parsing rule files (`.gitignore`-style) into patterns and
 * collecting them over a directory tree. The file system is a value: a
 * directory holds the text of the rule files that can be read in it and,
 * unless listing it fails, its entries as `lstat` classifies them.
 */
module Ignore {
  import opened Wrappers
  import opened Text
  import opened Utils
  import opened Paths

  // ---------------------------------------------------------------------------
  // parseIgnoreFileContent
  // ---------------------------------------------------------------------------

  /** A line that carries a rule: not empty and not a `#` comment. */
  predicate IsRuleLine(line: string) {
    |line| > 0 && line[0] != '#'
  }

  /**
   * `parseIgnoreFileContent`: the lines of the text (split on `\n` only, so a
   * trailing `\r` stays), without empty lines and comment lines, each
   * normalised. Every pattern is a single line ending neither in `/` nor `*`.
   */
  function ParseIgnoreFileContent(content: string): (r: seq<string>)
    ensures |r| <= |Split(content, '\n')|
    ensures forall k :: 0 <= k < |r| ==> IsPatternLine(r[k])
  {
    var lines := Split(content, '\n');
    SelectShorter(lines, IsRuleLine);
    ParsedLinesSingle(lines);
    NormalizeAll(Select(lines, IsRuleLine))
  }

  /** One line of a pattern list: no line break in it, and no `/` or `*` at its end. */
  predicate IsPatternLine(p: string) {
    '\n' !in p && (p != [] ==> !IsGlobTail(p[|p| - 1]))
  }

  lemma ParsedLinesSingle(lines: seq<string>)
    requires forall k :: 0 <= k < |lines| ==> '\n' !in lines[k]
    ensures forall k :: 0 <= k < |NormalizeAll(Select(lines, IsRuleLine))| ==> IsPatternLine(NormalizeAll(Select(lines, IsRuleLine))[k])
  {
    var kept := Select(lines, IsRuleLine);
    SelectMembers(lines, IsRuleLine);
    var r := NormalizeAll(kept);
    forall k | 0 <= k < |r| ensures IsPatternLine(r[k]) {
      assert kept[k] in lines;
      assert IsNormalizationOf(kept[k], r[k]);
      assert r[k] == kept[k][..|r[k]|];
    }
  }

  /** A single line is one pattern, its normal form, when it carries a rule, and nothing otherwise. */
  lemma ParseLine(line: string)
    requires '\n' !in line
    ensures ParseIgnoreFileContent(line) == if IsRuleLine(line) then [NormalizePattern(line)] else []
  {
    SplitNoSep(line, '\n');
    var one: seq<string> := [line];
    assert one[..0] == [];
  }

  /** Parsing is line by line: the patterns of two texts joined by a newline are the patterns of each, in order. */
  lemma ParseConcat(a: string, b: string)
    ensures ParseIgnoreFileContent(a + "\n" + b) == ParseIgnoreFileContent(a) + ParseIgnoreFileContent(b)
  {
    SplitConcat(a, b, '\n');
    SelectAppend(Split(a, '\n'), Split(b, '\n'), IsRuleLine);
    NormalizeAllAppend(Select(Split(a, '\n'), IsRuleLine), Select(Split(b, '\n'), IsRuleLine));
  }

  /** A pattern in normal form: a rule line, one line long, not ending in `/` or `*`. */
  predicate IsParsedPattern(p: string) {
    IsRuleLine(p) && '\n' !in p && !IsGlobTail(p[|p| - 1])
  }

  lemma NormalizeAllFixed(lines: seq<string>)
    requires forall k :: 0 <= k < |lines| ==> IsParsedPattern(lines[k])
    ensures NormalizeAll(lines) == lines
  {
    forall k | 0 <= k < |lines| ensures NormalizeAll(lines)[k] == lines[k] {
      ParsedPatternFixed(lines[k]);
    }
  }

  /** A pattern in normal form is left as it is by normalisation. */
  lemma ParsedPatternFixed(p: string)
    requires IsParsedPattern(p)
    ensures NormalizePattern(p) == p
  {
    assert p[..|p|] == p;
    NormalizationUnique(p, p);
  }

  /** A list of patterns already in normal form, written one per line, parses back to itself. */
  lemma ParseRoundTrip(patterns: seq<string>)
    requires forall k :: 0 <= k < |patterns| ==> IsParsedPattern(patterns[k])
    ensures ParseIgnoreFileContent(JoinWith(patterns, "\n")) == patterns
  {
    if patterns == [] {
      assert Split("", '\n') == [""];
    } else {
      SplitJoin(patterns, '\n');
      SelectAll(patterns, IsRuleLine);
      NormalizeAllFixed(patterns);
    }
  }

  // ---------------------------------------------------------------------------
  // getIgnoreFilePatterns
  // ---------------------------------------------------------------------------

  function JoinAll(dir: string, lines: seq<string>): (r: seq<string>)
    ensures |r| == |lines|
    ensures forall k :: 0 <= k < |r| ==> r[k] == Join(dir, lines[k])
  {
    if lines == [] then [] else [Join(dir, lines[0])] + JoinAll(dir, lines[1..])
  }

  /**
   * `getIgnoreFilePatterns`: each pattern of the rule file, placed under the
   * rule file's directory. A rule file that cannot be read counts as empty.
   * Under an absolute rule-file path every pattern is absolute.
   */
  function GetIgnoreFilePatterns(ruleFile: string, content: Option<string>): (r: seq<string>)
    ensures content.None? ==> r == []
    ensures |r| == |ParseIgnoreFileContent(if content.Some? then content.value else "")|
    ensures IsAbsolute(ruleFile) ==> AllAbsolute(r)
  {
    assert Split("", '\n') == [""];
    JoinAll(Dirname(ruleFile), ParseIgnoreFileContent(if content.Some? then content.value else ""))
  }

  // ---------------------------------------------------------------------------
  // collectIgnoreFilePatterns
  // ---------------------------------------------------------------------------

  /**
   * A directory: the rule files readable in it, by the name they are asked
   * for, whether `readdir` succeeds on it, and its entries.
   */
  datatype Dir = Dir(ruleFiles: map<string, string>, listable: bool, entries: seq<Entry>)

  datatype Entry = Entry(name: string, kind: EntryKind)

  /** What `lstat` reports: symbolic links are links, not what they point to; `Unstattable` is an `lstat` failure. */
  datatype EntryKind = RegularFile | SymbolicLink | Directory(dir: Dir) | Unstattable

  function ReadRuleFile(d: Dir, name: string): Option<string> {
    if name in d.ruleFiles then Some(d.ruleFiles[name]) else None
  }

  /** The directory's own patterns: those of each rule-file name, in the order the names are given. */
  function OwnPatterns(path: string, d: Dir, names: seq<string>): seq<string> {
    Flatten(RuleFilePatterns(path, d, names))
  }

  /** The patterns of each rule-file name, one list per name. */
  function RuleFilePatterns(path: string, d: Dir, names: seq<string>): (r: seq<seq<string>>)
    ensures |r| == |names|
  {
    seq(|names|, k requires 0 <= k < |names| => GetIgnoreFilePatterns(Join(path, names[k]), ReadRuleFile(d, names[k])))
  }

  /** The lists one after another. */
  function Flatten(xss: seq<seq<string>>): seq<string> {
    if xss == [] then [] else xss[0] + Flatten(xss[1..])
  }

  lemma {:induction false} FlattenConcat(a: seq<seq<string>>, b: seq<seq<string>>)
    ensures Flatten(a + b) == Flatten(a) + Flatten(b)
  {
    if a == [] {
      assert a + b == b;
    } else {
      assert (a + b)[0] == a[0] && (a + b)[1..] == a[1..] + b;
      FlattenConcat(a[1..], b);
    }
  }

  /** Whatever one of the lists holds, the flattened list holds. */
  lemma FlattenMember(xss: seq<seq<string>>, k: nat, v: string)
    requires k < |xss| && v in xss[k]
    ensures v in Flatten(xss)
  {
    var tail := xss[k..];
    assert xss == xss[..k] + tail;
    FlattenConcat(xss[..k], tail);
    assert tail[0] == xss[k];
  }

  function AsSet(patterns: seq<string>): set<string> {
    set p | p in patterns
  }

  /** An entry is descended into when it is a directory whose basename is not one of the directory's own patterns. */
  predicate Descends(path: string, skip: set<string>, e: Entry) {
    e.kind.Directory? && Basename(Join(path, e.name)) !in skip
  }

  predicate HasUnstattable(entries: seq<Entry>) {
    exists k :: 0 <= k < |entries| && entries[k].kind.Unstattable?
  }

  /**
   * `collectIgnoreFilePatterns`: the directory's own patterns followed by the
   * patterns collected in each descended subdirectory, in listing order.
   * `None` is a rejected call: the listing or an `lstat` of this directory
   * failed, or a descended subdirectory's collection did.
   */
  function CollectIgnoreFilePatterns(path: string, d: Dir, names: seq<string>): (r: Option<seq<string>>)
    ensures !d.listable ==> r.None?
    decreases d, 1
  {
    if !d.listable || HasUnstattable(d.entries) then None
    else
      var own := OwnPatterns(path, d, names);
      var rest := CollectSubdirs(path, d, 0, AsSet(own), names);
      if rest.None? then None else Some(own + rest.value)
  }

  /** The patterns of the descended subdirectories among the entries from index `i` on. */
  function CollectSubdirs(path: string, d: Dir, i: nat, skip: set<string>, names: seq<string>): Option<seq<string>>
    requires d.listable && i <= |d.entries|
    decreases d, 0, |d.entries| - i
  {
    if i == |d.entries| then Some([])
    else
      var e := d.entries[i];
      var rest := CollectSubdirs(path, d, i + 1, skip, names);
      if !Descends(path, skip, e) then rest
      else
        var sub := CollectIgnoreFilePatterns(Join(path, e.name), e.kind.dir, names);
        if sub.None? || rest.None? then None else Some(sub.value + rest.value)
  }

  // ---------------------------------------------------------------------------
  // Properties of the walk
  // ---------------------------------------------------------------------------

  /** A collection that succeeds starts with the directory's own patterns. */
  lemma CollectStartsWithOwn(path: string, d: Dir, names: seq<string>)
    ensures var r := CollectIgnoreFilePatterns(path, d, names);
      r.Some? ==> OwnPatterns(path, d, names) <= r.value
  {
  }

  /** Without rule-file names nothing is collected, whatever the tree. */
  lemma {:induction false} CollectWithoutRuleFiles(path: string, d: Dir)
    ensures CollectIgnoreFilePatterns(path, d, []).Some? ==> CollectIgnoreFilePatterns(path, d, []).value == []
    decreases d, 1
  {
    if d.listable && !HasUnstattable(d.entries) {
      SubdirsWithoutRuleFiles(path, d, 0, AsSet(OwnPatterns(path, d, [])));
    }
  }

  lemma {:induction false} SubdirsWithoutRuleFiles(path: string, d: Dir, i: nat, skip: set<string>)
    requires d.listable && i <= |d.entries|
    ensures CollectSubdirs(path, d, i, skip, []).Some? ==> CollectSubdirs(path, d, i, skip, []).value == []
    decreases d, 0, |d.entries| - i
  {
    if i < |d.entries| {
      SubdirsWithoutRuleFiles(path, d, i + 1, skip);
      var e := d.entries[i];
      var rest := CollectSubdirs(path, d, i + 1, skip, []);
      if Descends(path, skip, e) {
        var sub := CollectIgnoreFilePatterns(Join(path, e.name), e.kind.dir, []);
        CollectWithoutRuleFiles(Join(path, e.name), e.kind.dir);
        assert CollectSubdirs(path, d, i, skip, []) == if sub.None? || rest.None? then None else Some(sub.value + rest.value);
      } else {
        assert CollectSubdirs(path, d, i, skip, []) == rest;
      }
    }
  }

  predicate AllAbsolute(patterns: seq<string>) {
    forall k :: 0 <= k < |patterns| ==> IsAbsolute(patterns[k])
  }

  lemma AllAbsoluteConcat(a: seq<string>, b: seq<string>)
    requires AllAbsolute(a) && AllAbsolute(b)
    ensures AllAbsolute(a + b)
  {
    forall k | 0 <= k < |a + b| ensures IsAbsolute((a + b)[k]) {
      if k >= |a| {
        assert (a + b)[k] == b[k - |a|];
      }
    }
  }

  /** Under an absolute directory every own pattern is absolute. */
  lemma OwnPatternsAbsolute(path: string, d: Dir, names: seq<string>)
    requires IsAbsolute(path)
    ensures AllAbsolute(OwnPatterns(path, d, names))
  {
    var xss := RuleFilePatterns(path, d, names);
    forall k | 0 <= k < |xss| ensures AllAbsolute(xss[k]) {
      assert IsAbsolute(Join(path, names[k]));
    }
    FlattenAbsolute(xss);
  }

  lemma {:induction false} FlattenAbsolute(xss: seq<seq<string>>)
    requires forall k :: 0 <= k < |xss| ==> AllAbsolute(xss[k])
    ensures AllAbsolute(Flatten(xss))
  {
    if xss != [] {
      FlattenAbsolute(xss[1..]);
      AllAbsoluteConcat(xss[0], Flatten(xss[1..]));
    }
  }

  /** Under an absolute root every collected pattern is absolute. */
  lemma {:induction false} CollectAbsolute(path: string, d: Dir, names: seq<string>)
    requires IsAbsolute(path)
    ensures var r := CollectIgnoreFilePatterns(path, d, names);
      r.Some? ==> AllAbsolute(r.value)
    decreases d, 1
  {
    if d.listable && !HasUnstattable(d.entries) {
      var own := OwnPatterns(path, d, names);
      OwnPatternsAbsolute(path, d, names);
      SubdirsAbsolute(path, d, 0, AsSet(own), names);
      var rest := CollectSubdirs(path, d, 0, AsSet(own), names);
      if rest.Some? {
        AllAbsoluteConcat(own, rest.value);
      }
    }
  }

  lemma {:induction false} SubdirsAbsolute(path: string, d: Dir, i: nat, skip: set<string>, names: seq<string>)
    requires IsAbsolute(path)
    requires d.listable && i <= |d.entries|
    ensures var r := CollectSubdirs(path, d, i, skip, names);
      r.Some? ==> AllAbsolute(r.value)
    decreases d, 0, |d.entries| - i
  {
    if i < |d.entries| {
      SubdirsAbsolute(path, d, i + 1, skip, names);
      var e := d.entries[i];
      if Descends(path, skip, e) {
        var sub := Join(path, e.name);
        CollectAbsolute(sub, e.kind.dir, names);
        var here := CollectIgnoreFilePatterns(sub, e.kind.dir, names);
        var rest := CollectSubdirs(path, d, i + 1, skip, names);
        if here.Some? && rest.Some? {
          AllAbsoluteConcat(here.value, rest.value);
        }
      }
    }
  }

  /**
   * Under an absolute root the skip test never fires: every own pattern is
   * absolute, and the basename of a listed name is that name, which is not.
   */
  lemma AbsoluteRootNeverSkips(path: string, d: Dir, names: seq<string>, e: Entry)
    requires IsAbsolute(path)
    requires IsPlainName(e.name) && e.kind.Directory?
    ensures Descends(path, AsSet(OwnPatterns(path, d, names)), e)
  {
    OwnPatternsAbsolute(path, d, names);
    JoinBasename(path, e.name);
  }

  /** Under the root `.`, a rule file holding just a plain name yields that bare name as its only pattern. */
  lemma DotRulePattern(f: string, name: string)
    requires IsPlainName(f)
    requires IsPlainName(name) && IsParsedPattern(name)
    ensures GetIgnoreFilePatterns(Join(".", f), Some(name)) == [name]
  {
    SplitNoSep(f, '/');
    JoinDot(f);
    DirnamePlain(f);
    ParsedPatternLine(name);
    SplitNoSep(name, '/');
    JoinDot(name);
    assert JoinAll(Dirname(f), [name]) == [Join(Dirname(f), name)];
  }

  /** A line already in normal form parses to itself. */
  lemma ParsedPatternLine(name: string)
    requires IsParsedPattern(name)
    ensures ParseIgnoreFileContent(name) == [name]
  {
    ParseLine(name);
    assert name[..|name|] == name;
    NormalizationUnique(name, name);
  }

  /**
   * Under the root `.`, a rule file whose only rule is a plain directory name
   * makes that directory's own pattern the bare name, so a subdirectory of
   * that name is not descended into.
   */
  lemma DotRootSkipsListedDir(d: Dir, names: seq<string>, k: nat, e: Entry)
    requires k < |names| && IsPlainName(names[k])
    requires names[k] in d.ruleFiles && d.ruleFiles[names[k]] == e.name
    requires IsPlainName(e.name) && IsParsedPattern(e.name)
    ensures !Descends(".", AsSet(OwnPatterns(".", d, names)), e)
  {
    DotRulePattern(names[k], e.name);
    FlattenMember(RuleFilePatterns(".", d, names), k, e.name);
    JoinBasename(".", e.name);
  }

  /** The failure of a descended subdirectory rejects the collection of every entry range containing it. */
  lemma {:induction false} SubdirFailureRejects(path: string, d: Dir, i: nat, j: nat, skip: set<string>, names: seq<string>)
    requires d.listable && i <= j < |d.entries|
    requires Descends(path, skip, d.entries[j])
    requires CollectIgnoreFilePatterns(Join(path, d.entries[j].name), d.entries[j].kind.dir, names).None?
    ensures CollectSubdirs(path, d, i, skip, names).None?
    decreases j - i
  {
    if i < j {
      SubdirFailureRejects(path, d, i + 1, j, skip, names);
    }
  }

  /**
   * A listing failure, an `lstat` failure or the failure of any descended
   * subdirectory rejects the whole collection.
   */
  lemma CollectFailure(path: string, d: Dir, names: seq<string>, j: nat)
    requires d.listable && j < |d.entries|
    requires var e := d.entries[j];
      e.kind.Unstattable? ||
      (Descends(path, AsSet(OwnPatterns(path, d, names)), e) && CollectIgnoreFilePatterns(Join(path, e.name), e.kind.dir, names).None?)
    ensures CollectIgnoreFilePatterns(path, d, names).None?
  {
    if !HasUnstattable(d.entries) {
      SubdirFailureRejects(path, d, 0, j, AsSet(OwnPatterns(path, d, names)), names);
    }
  }

  /**
   * The causes of a rejection are exactly these: the directory cannot be
   * listed, an entry cannot be `lstat`ed, or a descended subdirectory's
   * collection is rejected.
   */
  lemma CollectNoneCause(path: string, d: Dir, names: seq<string>)
    ensures CollectIgnoreFilePatterns(path, d, names).None? <==>
      || !d.listable
      || HasUnstattable(d.entries)
      || exists j :: 0 <= j < |d.entries| && FailingSubdir(path, d, AsSet(OwnPatterns(path, d, names)), names, j)
  {
    if d.listable && !HasUnstattable(d.entries) {
      var skip := AsSet(OwnPatterns(path, d, names));
      SubdirsNoneCause(path, d, 0, skip, names);
      if exists j :: 0 <= j < |d.entries| && FailingSubdir(path, d, skip, names, j) {
        var j :| 0 <= j < |d.entries| && FailingSubdir(path, d, skip, names, j);
        SubdirFailureRejects(path, d, 0, j, skip, names);
      }
    }
  }

  /** Entry `j` is a descended subdirectory whose own collection is rejected. */
  predicate FailingSubdir(path: string, d: Dir, skip: set<string>, names: seq<string>, j: nat)
    requires j < |d.entries|
  {
    var e := d.entries[j];
    Descends(path, skip, e) && CollectIgnoreFilePatterns(Join(path, e.name), e.kind.dir, names).None?
  }

  lemma {:induction false} SubdirsNoneCause(path: string, d: Dir, i: nat, skip: set<string>, names: seq<string>)
    requires d.listable && i <= |d.entries|
    ensures CollectSubdirs(path, d, i, skip, names).None? ==>
      exists j :: i <= j < |d.entries| && FailingSubdir(path, d, skip, names, j)
    decreases |d.entries| - i
  {
    if i < |d.entries| {
      SubdirsNoneCause(path, d, i + 1, skip, names);
      if !CollectSubdirs(path, d, i + 1, skip, names).None? && CollectSubdirs(path, d, i, skip, names).None? {
        assert FailingSubdir(path, d, skip, names, i);
      }
    }
  }

  /**
   * A collection that succeeds has collected every descended subdirectory
   * successfully, and holds each of that subdirectory's patterns.
   */
  lemma CollectIncludesDescended(path: string, d: Dir, names: seq<string>, j: nat)
    requires j < |d.entries|
    requires Descends(path, AsSet(OwnPatterns(path, d, names)), d.entries[j])
    ensures var r := CollectIgnoreFilePatterns(path, d, names);
      var sub := CollectIgnoreFilePatterns(Join(path, d.entries[j].name), d.entries[j].kind.dir, names);
      r.Some? ==> sub.Some? && forall q <- sub.value :: q in r.value
  {
    if d.listable && !HasUnstattable(d.entries) {
      SubdirsIncludeDescended(path, d, 0, AsSet(OwnPatterns(path, d, names)), names, j);
    }
  }

  lemma {:induction false} SubdirsIncludeDescended(path: string, d: Dir, i: nat, skip: set<string>, names: seq<string>, j: nat)
    requires d.listable && i <= j < |d.entries|
    requires Descends(path, skip, d.entries[j])
    ensures var r := CollectSubdirs(path, d, i, skip, names);
      var sub := CollectIgnoreFilePatterns(Join(path, d.entries[j].name), d.entries[j].kind.dir, names);
      r.Some? ==> sub.Some? && forall q <- sub.value :: q in r.value
    decreases j - i
  {
    if i < j {
      SubdirsIncludeDescended(path, d, i + 1, skip, names, j);
    }
  }

  /**
   * An entry that is not descended into (a file, a symbolic link, a skipped
   * directory) can be replaced by any other such entry without changing what
   * is collected.
   */
  lemma {:induction false} SubdirsIgnoreUndescended(path: string, d: Dir, d': Dir, j: nat, e': Entry, i: nat, skip: set<string>, names: seq<string>)
    requires d.listable && j < |d.entries| && i <= |d.entries|
    requires d'.listable && d'.entries == d.entries[j := e']
    requires !Descends(path, skip, d.entries[j]) && !Descends(path, skip, e')
    ensures CollectSubdirs(path, d', i, skip, names) == CollectSubdirs(path, d, i, skip, names)
    decreases |d.entries| - i
  {
    if i < |d.entries| {
      SubdirsIgnoreUndescended(path, d, d', j, e', i + 1, skip, names);
    }
  }

  lemma CollectIgnoresUndescended(path: string, d: Dir, j: nat, e': Entry, names: seq<string>)
    requires d.listable && j < |d.entries|
    requires !d.entries[j].kind.Unstattable? && !e'.kind.Unstattable?
    requires !Descends(path, AsSet(OwnPatterns(path, d, names)), d.entries[j])
    requires !Descends(path, AsSet(OwnPatterns(path, d, names)), e')
    ensures CollectIgnoreFilePatterns(path, d.(entries := d.entries[j := e']), names)
         == CollectIgnoreFilePatterns(path, d, names)
  {
    var entries := d.entries;
    var d' := d.(entries := entries[j := e']);
    var own := OwnPatterns(path, d, names);
    OwnPatternsSameFiles(path, d, d', names);
    UnstattableReplaced(entries, j, e');
    SubdirsIgnoreUndescended(path, d, d', j, e', 0, AsSet(own), names);
  }

  lemma UnstattableReplaced(entries: seq<Entry>, j: nat, e': Entry)
    requires j < |entries| && !entries[j].kind.Unstattable? && !e'.kind.Unstattable?
    ensures HasUnstattable(entries[j := e']) <==> HasUnstattable(entries)
  {
    if HasUnstattable(entries) {
      var k :| 0 <= k < |entries| && entries[k].kind.Unstattable?;
      assert entries[j := e'][k].kind.Unstattable?;
    }
    if HasUnstattable(entries[j := e']) {
      var k :| 0 <= k < |entries| && entries[j := e'][k].kind.Unstattable?;
      assert entries[k].kind.Unstattable?;
    }
  }

  lemma OwnPatternsSameFiles(path: string, d: Dir, d': Dir, names: seq<string>)
    requires d.ruleFiles == d'.ruleFiles
    ensures OwnPatterns(path, d, names) == OwnPatterns(path, d', names)
  {
    var a, b := RuleFilePatterns(path, d, names), RuleFilePatterns(path, d', names);
    forall k | 0 <= k < |names| ensures a[k] == b[k] {
      assert ReadRuleFile(d, names[k]) == ReadRuleFile(d', names[k]);
    }
    assert a == b;
  }
}
