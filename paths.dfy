/**
 * The part of Node's POSIX `path` module that the ignore-rule walk, the
 * daemon and the command line rely on: `join` of two arguments, `normalize`,
 * `dirname`, `basename`, `isAbsolute` and `resolve` against a working
 * directory. Paths are strings; normalisation works on the `/`-separated
 * segments, which is how Node's `normalizeString` reads them.
 */
module Paths {
  import opened Text

  predicate IsSlash(c: char) {
    c == '/'
  }

  predicate NotSlash(c: char) {
    c != '/'
  }

  /** `path.isAbsolute`: the path starts with `/`. */
  predicate IsAbsolute(p: string) {
    p != [] && p[0] == '/'
  }

  /** A segment that survives normalisation: not empty, not `.`, no separator (`..` included). */
  predicate IsSegment(s: string) {
    s != [] && s != "." && '/' !in s
  }

  /** A file or directory name as a listing gives it: a segment other than `..`. */
  predicate IsPlainName(s: string) {
    s != [] && s != "." && s != ".." && '/' !in s
  }

  /** A relative path already in normal form without `..`: every segment is a plain name. */
  predicate IsCleanRelative(p: string) {
    forall k :: 0 <= k < |Split(p, '/')| ==> IsPlainName(Split(p, '/')[k])
  }

  /**
   * One segment applied to the segments kept so far: empty and `.` segments
   * vanish, `..` drops the last kept segment unless that is itself `..`;
   * with nothing to drop it is kept only for a relative path.
   */
  function Step(stack: seq<string>, seg: string, aboveRoot: bool): seq<string> {
    if seg == "" || seg == "." then stack
    else if seg == ".." then
      if stack != [] && stack[|stack| - 1] != ".." then stack[..|stack| - 1]
      else if aboveRoot then stack + [".."]
      else stack
    else stack + [seg]
  }

  /** The segments from left to right applied to `stack`. */
  function Replay(stack: seq<string>, segs: seq<string>, aboveRoot: bool): (r: seq<string>)
    requires forall k :: 0 <= k < |stack| ==> IsSegment(stack[k])
    requires forall k :: 0 <= k < |segs| ==> '/' !in segs[k]
    ensures forall k :: 0 <= k < |r| ==> IsSegment(r[k])
    decreases segs
  {
    if segs == [] then stack else Replay(Step(stack, segs[0], aboveRoot), segs[1..], aboveRoot)
  }

  /** Node's `normalizeString`: the kept segments joined by `/`, no leading or trailing separator. */
  function NormalizeString(p: string, aboveRoot: bool): string {
    JoinWith(Replay([], Split(p, '/'), aboveRoot), "/")
  }

  /**
   * `path.normalize`: `"."` for the empty path; otherwise the normalised
   * segments, with the leading `/` of an absolute path and a trailing `/`
   * kept.
   */
  function Normalize(p: string): (r: string)
    ensures r != []
    ensures IsAbsolute(r) <==> IsAbsolute(p)
  {
    if p == [] then "."
    else
      var absolute := p[0] == '/';
      var trailing := p[|p| - 1] == '/';
      var stack := Replay([], Split(p, '/'), !absolute);
      var body := JoinWith(stack, "/");
      if stack == [] then (if absolute then "/" else if trailing then "./" else ".")
      else
        JoinWithFirst(stack, "/");
        (if absolute then "/" else "") + body + (if trailing then "/" else "")
  }

  /** `path.join(a, b)`: empty arguments are dropped, `"."` when both are, the rest joined by `/` and normalised. */
  function Join(a: string, b: string): (r: string)
    ensures r != []
    ensures IsAbsolute(r) <==> if a != [] then IsAbsolute(a) else IsAbsolute(b)
  {
    if a == [] && b == [] then "."
    else if a == [] then Normalize(b)
    else if b == [] then Normalize(a)
    else Normalize(a + "/" + b)
  }

  /** The last non-empty segment, or `""` when there is none. */
  function LastSegment(segs: seq<string>): string {
    if segs == [] then ""
    else if segs[|segs| - 1] != "" then segs[|segs| - 1]
    else LastSegment(segs[..|segs| - 1])
  }

  /** `path.basename` without an extension argument: the last name, trailing separators ignored. */
  function Basename(p: string): (r: string)
    ensures '/' !in r
  {
    LastSegmentSlashFree(Split(p, '/'));
    LastSegment(Split(p, '/'))
  }

  lemma {:induction false} LastSegmentSlashFree(segs: seq<string>)
    requires forall k :: 0 <= k < |segs| ==> '/' !in segs[k]
    ensures '/' !in LastSegment(segs)
  {
    if segs != [] && segs[|segs| - 1] == "" {
      LastSegmentSlashFree(segs[..|segs| - 1]);
    }
  }

  /**
   * `path.dirname`: the path up to the separator before its last name,
   * trailing separators ignored; `"/"` or `"."` when there is no such
   * separator after the first character, and `"//"` for a path that starts
   * with two separators before its only name.
   */
  function Dirname(p: string): (r: string)
    ensures r != []
    ensures IsAbsolute(r) <==> IsAbsolute(p)
  {
    if p == [] then "."
    else
      var s := p[1..];
      var k1 := TrailingStart(s, IsSlash);
      var k2 := TrailingStart(s[..k1], NotSlash);
      if k1 == 0 || k2 == 0 then (if p[0] == '/' then "/" else ".")
      else if p[0] == '/' && k2 == 1 then "//"
      else p[..k2]
  }

  /**
   * `path.resolve(cwd, p)` with an absolute `cwd`: an absolute `p` stands on
   * its own, a relative one is appended to `cwd`; the result is normalised,
   * absolute and without a trailing separator.
   */
  function Resolve(cwd: string, p: string): (r: string)
    requires IsAbsolute(cwd)
    ensures IsAbsolute(r)
  {
    var joined := if p == [] then cwd + "/" else if IsAbsolute(p) then p + "/" else cwd + "/" + p + "/";
    "/" + NormalizeString(joined, false)
  }

  // ---------------------------------------------------------------------------
  // Properties
  // ---------------------------------------------------------------------------

  /** Applying segments one after another: the last segment is one more step. */
  lemma {:induction false} ReplaySnoc(stack: seq<string>, segs: seq<string>, seg: string, aboveRoot: bool)
    requires forall k :: 0 <= k < |stack| ==> IsSegment(stack[k])
    requires forall k :: 0 <= k < |segs| ==> '/' !in segs[k]
    requires '/' !in seg
    ensures Replay(stack, segs + [seg], aboveRoot) == Step(Replay(stack, segs, aboveRoot), seg, aboveRoot)
    decreases segs
  {
    if segs != [] {
      assert (segs + [seg])[1..] == segs[1..] + [seg];
      ReplaySnoc(Step(stack, segs[0], aboveRoot), segs[1..], seg, aboveRoot);
    }
  }

  /** Plain names are kept as they are, in order. */
  lemma {:induction false} ReplayPlain(stack: seq<string>, segs: seq<string>, aboveRoot: bool)
    requires forall k :: 0 <= k < |stack| ==> IsSegment(stack[k])
    requires forall k :: 0 <= k < |segs| ==> IsPlainName(segs[k]) && '/' !in segs[k]
    ensures Replay(stack, segs, aboveRoot) == stack + segs
    decreases segs
  {
    if segs != [] {
      ReplayPlain(stack + [segs[0]], segs[1..], aboveRoot);
      assert stack + [segs[0]] + segs[1..] == stack + segs;
    }
  }

  /** A path ending in a separator splits with an empty last piece. */
  lemma SplitTrailing(p: string)
    requires p != [] && p[|p| - 1] == '/'
    ensures Split(p, '/') == Split(p[..|p| - 1], '/') + [""]
  {
    SplitConcat(p[..|p| - 1], "", '/');
    assert p[..|p| - 1] + "/" + "" == p;
  }

  /** The pieces at the ends of a split: `[""]` for `""`, an empty first or last piece for a leading or trailing separator. */
  lemma SplitEnds(p: string)
    ensures p == [] ==> Split(p, '/') == [""]
    ensures p != [] && p[0] == '/' ==> Split(p, '/')[0] == ""
    ensures p != [] && p[|p| - 1] == '/' ==> Split(p, '/')[|Split(p, '/')| - 1] == ""
  {
    if p != [] && p[|p| - 1] == '/' {
      SplitTrailing(p);
    }
  }

  /** A clean relative path is not empty and neither starts nor ends with a separator. */
  lemma CleanEnds(p: string)
    requires IsCleanRelative(p)
    ensures p != [] && p[0] != '/' && p[|p| - 1] != '/'
  {
    SplitEnds(p);
  }

  /** A clean relative path is its own normal form. */
  lemma NormalizeClean(p: string)
    requires IsCleanRelative(p)
    ensures Normalize(p) == p
  {
    CleanEnds(p);
    var segs := Split(p, '/');
    ReplayPlain([], segs, true);
    assert Replay([], segs, true) == segs;
    JoinSplit(p, '/');
  }

  /** Joining two clean relative paths puts one separator between them and changes nothing else. */
  lemma JoinClean(a: string, b: string)
    requires IsCleanRelative(a) && IsCleanRelative(b)
    ensures Join(a, b) == a + "/" + b
  {
    CleanEnds(a);
    CleanEnds(b);
    var p := a + "/" + b;
    SplitConcat(a, b, '/');
    var sa, sb := Split(a, '/'), Split(b, '/');
    assert forall k :: 0 <= k < |sa + sb| ==> IsPlainName((sa + sb)[k]) by {
      forall k | 0 <= k < |sa + sb| ensures IsPlainName((sa + sb)[k]) {
        if k < |sa| { assert (sa + sb)[k] == sa[k]; } else { assert (sa + sb)[k] == sb[k - |sa|]; }
      }
    }
    NormalizeClean(p);
  }

  /** Joining `.` with a clean relative path gives that path. */
  lemma JoinDot(b: string)
    requires IsCleanRelative(b)
    ensures Join(".", b) == b
  {
    var sb := Split(b, '/');
    assert Split("", '/') == [""];
    NormalizeClean(b);
    SplitPrefix(".", b, '/');
    ReplayPlain([], sb, true);
    JoinSplit(b, '/');
    assert ("." + "/" + b)[|"." + "/" + b| - 1] == b[|b| - 1];
  }

  /** A plain name joined onto any directory comes back as the basename. */
  lemma JoinBasename(dir: string, name: string)
    requires IsPlainName(name)
    ensures Basename(Join(dir, name)) == name
  {
    SplitNoSep(name, '/');
    if dir == [] {
      assert IsCleanRelative(name);
      NormalizeClean(name);
    } else {
      var p := dir + "/" + name;
      SplitConcat(dir, name, '/');
      var stack := Replay([], Split(dir, '/'), p[0] != '/');
      ReplaySnoc([], Split(dir, '/'), name, p[0] != '/');
      var full := stack + [name];
      assert p[|p| - 1] == name[|name| - 1];
      JoinWithFirst(full, "/");
      var body := JoinWith(full, "/");
      SplitJoin(full, '/');
      assert Normalize(p) == (if p[0] == '/' then "/" else "") + body;
      var r := (if p[0] == '/' then "/" else "") + body;
      if p[0] == '/' {
        SplitPrefix("", body, '/');
        assert "/" + body == "" + "/" + body;
        assert Split(r, '/') == [""] + full;
      } else {
        assert r == body;
      }
      assert LastSegment(Split(r, '/')) == name;
    }
  }

  /** A plain name joined onto a directory is pushed onto the directory's normalised segments. */
  lemma JoinPlainName(dir: string, name: string)
    requires IsPlainName(name) && dir != []
    ensures Join(dir, name)
         == (if dir[0] == '/' then "/" else "") + JoinWith(Replay([], Split(dir, '/'), dir[0] != '/') + [name], "/")
  {
    SplitNoSep(name, '/');
    var p := dir + "/" + name;
    SplitConcat(dir, name, '/');
    ReplaySnoc([], Split(dir, '/'), name, dir[0] != '/');
    assert p[0] == dir[0];
    assert p[|p| - 1] == name[|name| - 1];
  }

  /**
   * A plain name joined onto any directory ends the result, and unless it is
   * the whole result a separator comes right before it.
   */
  lemma JoinEndsWithName(dir: string, name: string)
    requires IsPlainName(name)
    ensures var r := Join(dir, name);
      |name| <= |r| && r[|r| - |name|..] == name && (|name| < |r| ==> r[|r| - |name| - 1] == '/')
  {
    if dir == [] {
      SplitNoSep(name, '/');
      assert IsCleanRelative(name);
      NormalizeClean(name);
    } else {
      JoinPlainName(dir, name);
      var lead: string := if dir[0] == '/' then "/" else "";
      var stack := Replay([], Split(dir, '/'), dir[0] != '/');
      if stack == [] {
        assert stack + [name] == [name];
        NameAtEnd(lead, name);
      } else {
        JoinWithConcat(stack, [name], "/");
        var front := lead + JoinWith(stack, "/") + "/";
        assert Join(dir, name) == front + name;
        NameAtEnd(front, name);
      }
    }
  }

  lemma NameAtEnd(front: string, name: string)
    ensures var r := front + name;
      |name| <= |r| && r[|r| - |name|..] == name && (front != [] ==> r[|r| - |name| - 1] == front[|front| - 1])
  {
    var r := front + name;
    assert r[|front|..] == name;
  }

  /** A name without separators lies in the current directory. */
  lemma DirnamePlain(name: string)
    requires '/' !in name
    ensures Dirname(name) == "."
  {
  }

  /**
   * Resolving a relative path without a trailing separator against an
   * absolute working directory is the same as joining the two.
   */
  lemma ResolveIsJoin(cwd: string, p: string)
    requires IsAbsolute(cwd)
    requires p != [] && !IsAbsolute(p) && p[|p| - 1] != '/'
    ensures Resolve(cwd, p) == Join(cwd, p)
  {
    var q := cwd + "/" + p;
    assert q[0] == '/' && q[|q| - 1] == p[|p| - 1];
    SplitTrailing(q + "/");
    assert (q + "/")[..|q + "/"| - 1] == q;
    var segs := Split(q, '/');
    ReplaySnoc([], segs, "", false);
  }
}
