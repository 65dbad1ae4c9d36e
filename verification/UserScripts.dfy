/**
 * addons.c: reading a user script's metadata and deciding whether the script runs on a page.
 */
module UserScripts {
  import opened Glob

  // ---------------------------------------------------------------- lines

  /** `g_ascii_isspace`, which does not count the vertical tab. */
  predicate IsSpace(c: char) {
    c in {' ', '\t', '\n', '\r', 12 as char}
  }

  function StripLeft(s: string): string {
    if s != [] && IsSpace(s[0]) then StripLeft(s[1..]) else s
  }

  function StripRight(s: string): string {
    if s != [] && IsSpace(s[|s| - 1]) then StripRight(s[..|s| - 1]) else s
  }

  /** `g_strstrip`. */
  function Strip(s: string): string {
    StripLeft(StripRight(s))
  }

  predicate Starts(line: string, prefix: string) {
    prefix <= Strip(line)
  }

  predicate Opens(line: string) {
    Starts(line, "// ==UserScript==")
  }

  predicate Closes(line: string) {
    !Opens(line) && Starts(line, "// ==/UserScript==")
  }

  predicate Unsupported(line: string) {
    Starts(line, "// @require") || Starts(line, "// @resource")
  }

  const INCLUDE := "// @include"
  const EXCLUDE := "// @exclude"

  /** What follows the keyword on a line that starts with it. */
  function Argument(line: string, keyword: string): string
    requires Starts(line, keyword)
  {
    Strip(Strip(line)[|keyword|..])
  }

  // ---------------------------------------------------------------- what the metadata says

  /** Before line `i` a metadata block has been opened and not closed since. */
  ghost predicate InBlock(lines: seq<string>, i: nat)
    requires i <= |lines|
  {
    exists j :: 0 <= j < i && Opens(lines[j]) && forall k :: j < k < i ==> !Closes(lines[k])
  }

  /** Line `i` is a metadata line: it is inside a block and is not one of the lines around it. */
  ghost predicate MetaLine(lines: seq<string>, i: nat)
    requires i < |lines|
  {
    InBlock(lines, i) && !Opens(lines[i]) && !Closes(lines[i])
  }

  ghost predicate Rejects(lines: seq<string>, i: nat)
    requires i < |lines|
  {
    MetaLine(lines, i) && Unsupported(lines[i])
  }

  /** The metadata line gives the glob `glob` under the keyword. */
  ghost predicate Gives(lines: seq<string>, i: nat, keyword: string, glob: string)
    requires i < |lines|
  {
    MetaLine(lines, i) && Starts(lines[i], keyword) && glob == Argument(lines[i], keyword)
  }

  ghost predicate GivesSome(lines: seq<string>, keyword: string, glob: string) {
    exists i :: 0 <= i < |lines| && Gives(lines, i, keyword, glob)
  }

  /** The converted glob of a line that starts with the keyword. */
  function Given(line: string, keyword: string): seq<string> {
    if Starts(line, keyword) then [Convert(Argument(line, keyword))] else []
  }

  /** What line `i` contributes to the list of the keyword. */
  ghost function Part(lines: seq<string>, i: nat, keyword: string): seq<string>
    requires i < |lines|
  {
    if MetaLine(lines, i) then Given(lines[i], keyword) else []
  }

  ghost function Parts(lines: seq<string>, keyword: string): (parts: seq<seq<string>>)
    ensures |parts| == |lines|
  {
    seq(|lines|, i requires 0 <= i < |lines| => Part(lines, i, keyword))
  }

  /** The first `n` parts, the last first. */
  function ConcatDown(parts: seq<seq<string>>, n: nat): seq<string>
    requires n <= |parts|
  {
    if n == 0 then [] else parts[n - 1] + ConcatDown(parts, n - 1)
  }

  lemma {:induction false} InConcatDown(parts: seq<seq<string>>, n: nat, re: string)
    requires n <= |parts|
    ensures re in ConcatDown(parts, n) <==> exists i :: 0 <= i < n && re in parts[i]
  {
    if n > 0 {
      InConcatDown(parts, n - 1, re);
    }
  }

  /** The converted globs of the first `n` lines, the last first, as they are prepended to the list. */
  ghost function Patterns(lines: seq<string>, n: nat, keyword: string): seq<string>
    requires n <= |lines|
  {
    ConcatDown(Parts(lines, keyword), n)
  }

  lemma BlockStep(lines: seq<string>, i: nat)
    requires i < |lines|
    ensures InBlock(lines, i + 1) <==> Opens(lines[i]) || (InBlock(lines, i) && !Closes(lines[i]))
  {
    if InBlock(lines, i + 1) {
      var j :| 0 <= j < i + 1 && Opens(lines[j]) && forall k :: j < k < i + 1 ==> !Closes(lines[k]);
      assert j == i || (0 <= j < i && Opens(lines[j]) && forall k :: j < k < i ==> !Closes(lines[k]));
    }
    if InBlock(lines, i) && !Closes(lines[i]) {
      var j :| 0 <= j < i && Opens(lines[j]) && forall k :: j < k < i ==> !Closes(lines[k]);
      assert forall k :: j < k < i + 1 ==> !Closes(lines[k]);
    }
  }

  lemma KeywordsDiffer(line: string)
    ensures !(Starts(line, INCLUDE) && Starts(line, EXCLUDE))
    ensures Starts(line, INCLUDE) || Starts(line, EXCLUDE) ==> !Unsupported(line)
  {
    var s := Strip(line);
    assert INCLUDE[4] == 'i' && EXCLUDE[4] == 'e';
    assert "// @require"[4] == 'r' && "// @resource"[4] == 'r';
  }

  /** What has been collected so far. */
  datatype Metadata = Metadata(foundMeta: bool, includes: seq<string>, excludes: seq<string>)

  /** One line: `rejected` if it is a metadata line that asks for something unsupported. */
  method ReadLine(m: Metadata, line: string) returns (n: Metadata, rejected: bool)
    ensures var meta := m.foundMeta && !Opens(line) && !Closes(line);
      && rejected == (meta && Unsupported(line))
      && n.foundMeta == (Opens(line) || (m.foundMeta && !Closes(line)))
      && n.includes == (if meta then Given(line, INCLUDE) else []) + m.includes
      && n.excludes == (if meta then Given(line, EXCLUDE) else []) + m.excludes
  {
    KeywordsDiffer(line);
    n, rejected := m, false;
    if Opens(line) {
      n := m.(foundMeta := true);
    } else if m.foundMeta {
      if Closes(line) {
        n := m.(foundMeta := false);
      } else if Unsupported(line) {
        rejected := true;
      } else if Starts(line, INCLUDE) {
        n := m.(includes := [Convert(Argument(line, INCLUDE))] + m.includes);
      } else if Starts(line, EXCLUDE) {
        n := m.(excludes := [Convert(Argument(line, EXCLUDE))] + m.excludes);
      }
    }
  }

  /**
   * `js_metadata_from_file`: it gives up on an unsupported metadata line, with empty lists; otherwise it
   * collects the converted globs of all include and exclude lines.
   */
  method JsMetadata(lines: seq<string>) returns (ok: bool, includes: seq<string>, excludes: seq<string>)
    ensures ok <==> forall i :: 0 <= i < |lines| ==> !Rejects(lines, i)
    ensures !ok ==> includes == [] && excludes == []
    ensures ok ==> includes == Patterns(lines, |lines|, INCLUDE) && excludes == Patterns(lines, |lines|, EXCLUDE)
  {
    var m := Metadata(false, [], []);
    for i := 0 to |lines|
      invariant m.foundMeta <==> InBlock(lines, i)
      invariant forall k :: 0 <= k < i ==> !Rejects(lines, k)
      invariant m.includes == Patterns(lines, i, INCLUDE) && m.excludes == Patterns(lines, i, EXCLUDE)
    {
      BlockStep(lines, i);
      var rejected;
      m, rejected := ReadLine(m, lines[i]);
      if rejected {
        assert Rejects(lines, i);
        return false, [], [];
      }
    }
    ok, includes, excludes := true, m.includes, m.excludes;
  }

  // ---------------------------------------------------------------- the decision

  datatype Element = Element(enabled: bool, broken: bool, includes: seq<string>, excludes: seq<string>)

  ghost predicate SomeMatches(patterns: seq<string>, uri: string, breaks: set<char>) {
    exists re :: re in patterns && RegexMatchSimple(re, uri, breaks)
  }

  method AnyMatches(patterns: seq<string>, uri: string, breaks: set<char>) returns (matched: bool)
    ensures matched <==> SomeMatches(patterns, uri, breaks)
  {
    for i := 0 to |patterns|
      invariant forall k :: 0 <= k < i ==> !RegexMatchSimple(patterns[k], uri, breaks)
    {
      if RegexMatchSimple(patterns[i], uri, breaks) {
        return true;
      }
    }
    matched := false;
  }

  ghost predicate Admits(includes: seq<string>, excludes: seq<string>, uri: string, breaks: set<char>) {
    (includes == [] || SomeMatches(includes, uri, breaks)) && !SomeMatches(excludes, uri, breaks)
  }

  /** `addons_may_run`. */
  method MayRun(uri: string, includes: seq<string>, excludes: seq<string>, breaks: set<char>) returns (r: bool)
    ensures r <==> Admits(includes, excludes, uri, breaks)
  {
    r := includes == [];
    var matched := AnyMatches(includes, uri, breaks);
    if matched {
      r := true;
    }
    if !r {
      return false;
    }
    matched := AnyMatches(excludes, uri, breaks);
    if matched {
      r := false;
    }
  }

  ghost predicate Skipped(e: Element, uri: string, breaks: set<char>) {
    !e.enabled || e.broken || !Admits(e.includes, e.excludes, uri, breaks)
  }

  /** `addons_skip_element`: without any include or exclude, the URI is not looked at. */
  method SkipElement(e: Element, uri: string, breaks: set<char>) returns (skip: bool)
    ensures skip <==> Skipped(e, uri, breaks)
  {
    if !e.enabled || e.broken {
      return true;
    }
    if e.includes != [] || e.excludes != [] {
      var may := MayRun(uri, e.includes, e.excludes, breaks);
      if !may {
        return true;
      }
    }
    skip := false;
  }

  // ---------------------------------------------------------------- from lines to decision

  /** Some line of the keyword gives a glob that matches a prefix of the URI. */
  ghost predicate Covered(lines: seq<string>, keyword: string, uri: string, breaks: set<char>) {
    exists glob :: GivesSome(lines, keyword, glob) && GlobMatchesPrefix(WithoutSpaces(glob), uri, breaks)
  }

  ghost predicate Mentions(lines: seq<string>, keyword: string) {
    exists glob :: GivesSome(lines, keyword, glob)
  }

  lemma PatternsCover(lines: seq<string>, keyword: string, uri: string, breaks: set<char>)
    ensures SomeMatches(Patterns(lines, |lines|, keyword), uri, breaks) <==> Covered(lines, keyword, uri, breaks)
    ensures Patterns(lines, |lines|, keyword) == [] <==> !Mentions(lines, keyword)
  {
    var ps := Patterns(lines, |lines|, keyword);
    forall re | re in ps
      ensures exists glob :: GivesSome(lines, keyword, glob) && re == Convert(glob)
    {
      InConcatDown(Parts(lines, keyword), |lines|, re);
      var i :| 0 <= i < |lines| && re in Parts(lines, keyword)[i];
      var glob := Argument(lines[i], keyword);
      assert Gives(lines, i, keyword, glob);
      assert GivesSome(lines, keyword, glob) && re == Convert(glob);
    }
    forall glob | GivesSome(lines, keyword, glob)
      ensures Convert(glob) in ps
      ensures RegexMatchSimple(Convert(glob), uri, breaks) <==> GlobMatchesPrefix(WithoutSpaces(glob), uri, breaks)
    {
      var i :| 0 <= i < |lines| && Gives(lines, i, keyword, glob);
      assert Convert(glob) in Parts(lines, keyword)[i];
      InConcatDown(Parts(lines, keyword), |lines|, Convert(glob));
      ConvertedMatches(glob, uri, breaks);
    }
    if ps != [] {
      assert ps[0] in ps;
    }
  }

  /**
   * The script is enabled, its metadata asks for nothing unsupported, it has no include line or one of them covers
   * the page, and no exclude line covers it.
   */
  ghost predicate Runs(lines: seq<string>, enabled: bool, uri: string, breaks: set<char>) {
    && enabled
    && (forall i :: 0 <= i < |lines| ==> !Rejects(lines, i))
    && (!Mentions(lines, INCLUDE) || Covered(lines, INCLUDE, uri, breaks))
    && !Covered(lines, EXCLUDE, uri, breaks)
  }

  method ScriptRuns(lines: seq<string>, enabled: bool, uri: string, breaks: set<char>) returns (runs: bool)
    ensures runs <==> Runs(lines, enabled, uri, breaks)
  {
    var ok, includes, excludes := JsMetadata(lines);
    var skip := SkipElement(Element(enabled, !ok, includes, excludes), uri, breaks);
    PatternsCover(lines, INCLUDE, uri, breaks);
    PatternsCover(lines, EXCLUDE, uri, breaks);
    runs := !skip;
  }

  // ---------------------------------------------------------------- the order of lines

  /** A line that opens or closes a metadata block. */
  predicate Boundary(line: string) {
    Opens(line) || Closes(line)
  }

  /** No line from `i` to `j` opens or closes a block. */
  ghost predicate NoBoundary(lines: seq<string>, i: nat, j: nat)
    requires i <= |lines| && j <= |lines|
  {
    forall k :: (i <= k < j || j <= k < i) ==> !Boundary(lines[k])
  }

  /** Line `i` of `b` is line `p[i]` of `a`; lines are moved between the boundaries of blocks only. */
  ghost predicate Rearranged(a: seq<string>, b: seq<string>, p: seq<nat>) {
    && |a| == |b| == |p|
    && (forall i :: 0 <= i < |p| ==> p[i] < |a| && b[i] == a[p[i]] && NoBoundary(a, i, p[i]))
    && (forall i :: 0 <= i < |p| && Boundary(b[i]) ==> p[i] == i)
    && (forall k :: 0 <= k < |a| ==> k in p)
  }

  lemma {:induction false} SameBlock(lines: seq<string>, i: nat, j: nat)
    requires i <= j <= |lines| && NoBoundary(lines, i, j)
    ensures InBlock(lines, i) <==> InBlock(lines, j)
    decreases j
  {
    if i < j {
      BlockStep(lines, j - 1);
      SameBlock(lines, i, j - 1);
    }
  }

  lemma BoundaryStays(a: seq<string>, b: seq<string>, p: seq<nat>, i: nat)
    requires Rearranged(a, b, p) && i < |a|
    ensures Opens(a[i]) == Opens(b[i]) && Closes(a[i]) == Closes(b[i])
  {
    assert i in p;
    var j :| 0 <= j < |p| && p[j] == i;
    assert b[j] == a[i];
    if Boundary(a[i]) || Boundary(b[i]) {
      assert p[i] == i;
    }
  }

  /** Blocks depend on the boundaries only. */
  lemma SameBoundaries(a: seq<string>, b: seq<string>, i: nat)
    requires i <= |a| == |b|
    requires forall k :: 0 <= k < i ==> Opens(a[k]) == Opens(b[k]) && Closes(a[k]) == Closes(b[k])
    ensures InBlock(a, i) ==> InBlock(b, i)
  {
    if InBlock(a, i) {
      var j :| 0 <= j < i && Opens(a[j]) && forall k :: j < k < i ==> !Closes(a[k]);
      assert Opens(b[j]) && forall k :: j < k < i ==> !Closes(b[k]);
    }
  }

  lemma BlocksStay(a: seq<string>, b: seq<string>, p: seq<nat>, i: nat)
    requires Rearranged(a, b, p) && i <= |a|
    ensures InBlock(a, i) <==> InBlock(b, i)
  {
    forall k | 0 <= k < i
      ensures Opens(a[k]) == Opens(b[k]) && Closes(a[k]) == Closes(b[k])
    {
      BoundaryStays(a, b, p, k);
    }
    SameBoundaries(a, b, i);
    SameBoundaries(b, a, i);
  }

  /** A line says after the rearrangement what it said before. */
  lemma LineMoves(a: seq<string>, b: seq<string>, p: seq<nat>, i: nat)
    requires Rearranged(a, b, p) && i < |a|
    ensures p[i] < |a| && b[i] == a[p[i]] && (MetaLine(b, i) <==> MetaLine(a, p[i]))
  {
    BlocksStay(a, b, p, i);
    if i <= p[i] {
      SameBlock(a, i, p[i]);
    } else {
      SameBlock(a, p[i], i);
    }
  }

  lemma SameGlobs(a: seq<string>, b: seq<string>, p: seq<nat>, keyword: string, glob: string)
    requires Rearranged(a, b, p)
    ensures GivesSome(a, keyword, glob) <==> GivesSome(b, keyword, glob)
  {
    if i :| 0 <= i < |b| && Gives(b, i, keyword, glob) {
      LineMoves(a, b, p, i);
      assert Gives(a, p[i], keyword, glob);
    }
    if k :| 0 <= k < |a| && Gives(a, k, keyword, glob) {
      assert k in p;
      var i :| 0 <= i < |p| && p[i] == k;
      LineMoves(a, b, p, i);
      assert Gives(b, i, keyword, glob);
    }
  }

  lemma SameRejection(a: seq<string>, b: seq<string>, p: seq<nat>)
    requires Rearranged(a, b, p)
    ensures (exists i :: 0 <= i < |a| && Rejects(a, i)) <==> (exists i :: 0 <= i < |b| && Rejects(b, i))
  {
    if i :| 0 <= i < |b| && Rejects(b, i) {
      LineMoves(a, b, p, i);
      assert Rejects(a, p[i]);
    }
    if k :| 0 <= k < |a| && Rejects(a, k) {
      assert k in p;
      var i :| 0 <= i < |p| && p[i] == k;
      LineMoves(a, b, p, i);
      assert Rejects(b, i);
    }
  }

  /** Rearranging lines between the boundaries of metadata blocks never changes where a script runs. */
  lemma OrderIsIrrelevant(
    a: seq<string>, b: seq<string>, p: seq<nat>, enabled: bool, uri: string, breaks: set<char>)
    requires Rearranged(a, b, p)
    ensures Runs(a, enabled, uri, breaks) <==> Runs(b, enabled, uri, breaks)
  {
    SameRejection(a, b, p);
    forall keyword, glob
      ensures GivesSome(a, keyword, glob) <==> GivesSome(b, keyword, glob)
    {
      SameGlobs(a, b, p, keyword, glob);
    }
  }

  /** In particular, two neighbouring lines can be exchanged if neither opens or closes a block. */
  lemma NeighboursCommute(lines: seq<string>, i: nat, enabled: bool, uri: string, breaks: set<char>)
    requires i + 1 < |lines| && !Boundary(lines[i]) && !Boundary(lines[i + 1])
    ensures Runs(lines, enabled, uri, breaks)
      <==> Runs(lines[i := lines[i + 1]][i + 1 := lines[i]], enabled, uri, breaks)
  {
    var b := lines[i := lines[i + 1]][i + 1 := lines[i]];
    var p := seq(|lines|, k => k)[i := i + 1][i + 1 := i];
    forall k | 0 <= k < |lines|
      ensures k in p
    {
      assert p[if k == i then i + 1 else if k == i + 1 then i else k] == k;
    }
    OrderIsIrrelevant(lines, b, p, enabled, uri, breaks);
  }

  /** Across the line that closes the block it does matter: an include line no longer counts. */
  lemma BoundaryMatters(open: string, line: string, close: string)
    requires Opens(open) && Closes(close) && !Boundary(line) && Starts(line, INCLUDE)
    ensures Mentions([open, line, close], INCLUDE) && !Mentions([open, close, line], INCLUDE)
  {
    var a, b := [open, line, close], [open, close, line];
    BlockStep(a, 0);
    BlockStep(b, 0);
    BlockStep(b, 1);
    assert Gives(a, 1, INCLUDE, Argument(line, INCLUDE));
    assert GivesSome(a, INCLUDE, Argument(line, INCLUDE));
    forall i, glob | 0 <= i < 3
      ensures !Gives(b, i, INCLUDE, glob)
    {
      assert b[i] == if i == 0 then open else if i == 1 then close else line;
    }
  }
}
