/**
 * What metadata lines say, as they are written: markers, keywords and globs with white space around them.
 */
module ScriptLines {
  import opened Glob
  import opened UserScripts

  // ---------------------------------------------------------------- white space

  predicate Blank(c: char) {
    c in {' ', '\t', '\n', '\r', 12 as char}
  }

  ghost predicate White(s: string) {
    forall i :: 0 <= i < |s| ==> Blank(s[i])
  }

  /** There is no white space at either end. */
  ghost predicate Trimmed(s: string) {
    s == [] || (!Blank(s[0]) && !Blank(s[|s| - 1]))
  }

  lemma {:induction false} RightPart(s: string) returns (b: string)
    ensures s == StripRight(s) + b && White(b)
    ensures StripRight(s) != [] ==> !Blank(StripRight(s)[|StripRight(s)| - 1])
  {
    if s != [] && IsSpace(s[|s| - 1]) {
      var rest := RightPart(s[..|s| - 1]);
      b := rest + [s[|s| - 1]];
      assert s == s[..|s| - 1] + [s[|s| - 1]];
    } else {
      b := [];
    }
  }

  lemma {:induction false} LeftPart(s: string) returns (a: string)
    ensures s == a + StripLeft(s) && White(a)
    ensures StripLeft(s) != [] ==> !Blank(StripLeft(s)[0])
  {
    if s != [] && IsSpace(s[0]) {
      var rest := LeftPart(s[1..]);
      a := [s[0]] + rest;
      assert s == [s[0]] + s[1..];
    } else {
      a := [];
    }
  }

  /** Stripping takes white space off both ends, and all of it. */
  lemma StripMiddle(s: string) returns (a: string, b: string)
    ensures s == a + Strip(s) + b && White(a) && White(b) && Trimmed(Strip(s))
  {
    b := RightPart(s);
    a := LeftPart(StripRight(s));
    var m := Strip(s);
    assert StripRight(s) == a + m;
    assert m != [] ==> m[|m| - 1] == StripRight(s)[|StripRight(s)| - 1];
  }

  lemma Places(a: string, m: string, b: string)
    ensures forall i {:trigger a[i]} :: 0 <= i < |a| ==> (a + m + b)[i] == a[i]
    ensures forall i {:trigger m[i]} :: 0 <= i < |m| ==> (a + m + b)[|a| + i] == m[i]
    ensures forall i {:trigger b[i]} :: 0 <= i < |b| ==> (a + m + b)[|a| + |m| + i] == b[i]
  {
  }

  /** There is only one way to do that. */
  lemma MiddleIsUnique(a: string, m: string, b: string, c: string, n: string, d: string)
    requires a + m + b == c + n + d && White(a) && White(b) && White(c) && White(d) && Trimmed(m) && Trimmed(n)
    ensures m == n
  {
    var s := a + m + b;
    if m == [] {
      NothingTrimmed(a, b, c, n, d);
    } else if n == [] {
      NothingTrimmed(c, d, a, m, b);
    } else {
      assert |a| == |c| by {
        FirstAt(a, m, b, s);
        FirstAt(c, n, d, s);
      }
      assert |a| + |m| == |c| + |n| by {
        LastAt(a, m, b, s);
        LastAt(c, n, d, s);
      }
      assert m == s[|a|..|a| + |m|] && n == s[|c|..|c| + |n|];
    }
  }

  lemma NothingTrimmed(a: string, b: string, c: string, n: string, d: string)
    requires a + [] + b == c + n + d && White(a) && White(b) && Trimmed(n)
    ensures n == []
  {
    assert White(a + [] + b);
    Places(c, n, d);
  }

  /** The first character of `s` that is not white is that of the middle. */
  lemma FirstAt(a: string, m: string, b: string, s: string)
    requires s == a + m + b && White(a) && m != [] && Trimmed(m)
    ensures |a| < |s| && !Blank(s[|a|]) && forall i :: 0 <= i < |a| ==> Blank(s[i])
  {
    assert s[|a|] == m[0] && forall i :: 0 <= i < |a| ==> s[i] == a[i];
  }

  lemma LastAt(a: string, m: string, b: string, s: string)
    requires s == a + m + b && White(b) && m != [] && Trimmed(m)
    ensures var last := |a| + |m| - 1;
      last < |s| && !Blank(s[last]) && forall i :: last < i < |s| ==> Blank(s[i])
  {
    var last := |a| + |m| - 1;
    assert s[last] == m[|m| - 1] && forall i :: last < i < |s| ==> s[i] == b[i - last - 1];
  }

  lemma StripOf(a: string, m: string, b: string)
    requires White(a) && White(b) && Trimmed(m)
    ensures Strip(a + m + b) == m
  {
    var c, d := StripMiddle(a + m + b);
    MiddleIsUnique(a, m, b, c, Strip(a + m + b), d);
  }

  // ---------------------------------------------------------------- lines

  /** A line that starts with a keyword gives what comes after it, without the white space around it. */
  lemma LineGives(a: string, keyword: string, w: string, glob: string, b: string)
    requires keyword != [] && Trimmed(keyword) && White(a) && White(w) && White(b) && Trimmed(glob)
    ensures var line := a + keyword + w + glob + b;
      Starts(line, keyword) && Argument(line, keyword) == glob
  {
    var line := a + keyword + w + glob + b;
    if glob == [] {
      assert line == a + keyword + (w + b);
      StripOf(a, keyword, w + b);
      StripOf([], [], []);
      assert Strip(line)[|keyword|..] == [] + [] + [];
    } else {
      var m := keyword + w + glob;
      assert line == a + m + b;
      assert m[0] == keyword[0] && m[|m| - 1] == glob[|glob| - 1];
      StripOf(a, m, b);
      StripOf(w, glob, []);
      assert m[|keyword|..] == w + glob + [];
    }
  }

  lemma StartsInMiddle(a: string, m: string, b: string, keyword: string, line: string)
    requires line == a + m + b && White(a) && White(b) && keyword <= line && keyword != [] && Trimmed(keyword)
    ensures keyword <= m
  {
    assert line == a + (m + b);
    NoneBefore(a, m + b, line);
    assert line == m + b;
    NoneFrom(m, b, line, |keyword| - 1);
    assert m == line[..|m|] && keyword == line[..|keyword|];
  }

  lemma NoneBefore(a: string, rest: string, s: string)
    requires s == a + rest && White(a) && s != [] && !Blank(s[0])
    ensures a == []
  {
  }

  lemma NoneFrom(m: string, b: string, s: string, i: nat)
    requires s == m + b && White(b) && i < |s| && !Blank(s[i])
    ensures i < |m|
  {
  }

  /** Whatever follows a keyword, the line starts with it. */
  lemma StartsWith(keyword: string, rest: string)
    requires keyword != [] && Trimmed(keyword)
    ensures Starts(keyword + rest, keyword)
  {
    var line := keyword + rest;
    var a, b := StripMiddle(line);
    assert line[..|keyword|] == keyword;
    StartsInMiddle(a, Strip(line), b, keyword, line);
  }

  /** The two markers. */
  lemma Markers()
    ensures Opens("// ==UserScript==") && Closes("// ==/UserScript==")
  {
    StartsWith("// ==UserScript==", []);
    StartsWith("// ==/UserScript==", []);
    StripOf([], "// ==/UserScript==", []);
    assert "// ==UserScript==" + [] == "// ==UserScript==" && "// ==/UserScript==" + [] == "// ==/UserScript==";
    assert [] + "// ==/UserScript==" + [] == "// ==/UserScript==";
    assert "// ==UserScript=="[5] == 'U' && "// ==/UserScript=="[5] == '/';
  }

  /** A line that starts with one keyword starts with none that differs from it. */
  lemma StartsOnce(line: string, k: string, l: string, i: nat)
    requires Starts(line, k) && i < |k| && i < |l| && k[i] != l[i]
    ensures !Starts(line, l)
  {
  }

  /** An include line is nothing else. */
  lemma IncludeOnly(line: string)
    requires Starts(line, "// @include")
    ensures !Boundary(line) && !Unsupported(line) && !Starts(line, "// @exclude")
  {
    var k := "// @include";
    assert k[3] == '@' && k[4] == 'i';
    assert "// ==UserScript=="[3] == '=' && "// ==/UserScript=="[3] == '=';
    assert "// @require"[4] == 'r' && "// @resource"[4] == 'r' && "// @exclude"[4] == 'e';
    StartsOnce(line, k, "// ==UserScript==", 3);
    StartsOnce(line, k, "// ==/UserScript==", 3);
    StartsOnce(line, k, "// @require", 4);
    StartsOnce(line, k, "// @resource", 4);
    StartsOnce(line, k, "// @exclude", 4);
  }

  lemma ExcludeOnly(line: string)
    requires Starts(line, "// @exclude")
    ensures !Boundary(line) && !Unsupported(line) && !Starts(line, "// @include")
  {
    var k := "// @exclude";
    assert k[3] == '@' && k[4] == 'e';
    assert "// ==UserScript=="[3] == '=' && "// ==/UserScript=="[3] == '=';
    assert "// @require"[4] == 'r' && "// @resource"[4] == 'r' && "// @include"[4] == 'i';
    StartsOnce(line, k, "// ==UserScript==", 3);
    StartsOnce(line, k, "// ==/UserScript==", 3);
    StartsOnce(line, k, "// @require", 4);
    StartsOnce(line, k, "// @resource", 4);
    StartsOnce(line, k, "// @include", 4);
  }

  lemma NoMark(line: string)
    requires Starts(line, "// @require") || Starts(line, "// @resource")
    ensures !Boundary(line)
  {
    assert "// @require"[3] == '@' && "// @resource"[3] == '@';
    assert "// ==UserScript=="[3] == '=' && "// ==/UserScript=="[3] == '=';
    if Starts(line, "// @require") {
      StartsOnce(line, "// @require", "// ==UserScript==", 3);
      StartsOnce(line, "// @require", "// ==/UserScript==", 3);
    } else {
      StartsOnce(line, "// @resource", "// ==UserScript==", 3);
      StartsOnce(line, "// @resource", "// ==/UserScript==", 3);
    }
  }

  // ---------------------------------------------------------------- scripts of one metadata line

  lemma OneLine(open: string, line: string, close: string)
    requires Opens(open) && Closes(close) && !Boundary(line)
    ensures var lines := [open, line, close];
      !MetaLine(lines, 0) && MetaLine(lines, 1) && !MetaLine(lines, 2)
  {
    BlockStep([open, line, close], 0);
  }

  lemma OneLineGives(open: string, line: string, close: string, keyword: string, glob: string)
    requires Opens(open) && Closes(close) && !Boundary(line)
    ensures GivesSome([open, line, close], keyword, glob)
      <==> Starts(line, keyword) && glob == Argument(line, keyword)
  {
    var lines := [open, line, close];
    OneLine(open, line, close);
    assert lines[1] == line;
    if Starts(line, keyword) && glob == Argument(line, keyword) {
      assert Gives(lines, 1, keyword, glob);
    }
  }

  lemma OneLineRuns(open: string, line: string, close: string, uri: string, breaks: set<char>)
    requires Opens(open) && Closes(close) && !Boundary(line)
    ensures Runs([open, line, close], true, uri, breaks) <==>
      && !Unsupported(line)
      && (Starts(line, INCLUDE) ==> GlobMatchesPrefix(WithoutSpaces(Argument(line, INCLUDE)), uri, breaks))
      && (Starts(line, EXCLUDE) ==> !GlobMatchesPrefix(WithoutSpaces(Argument(line, EXCLUDE)), uri, breaks))
  {
    var lines := [open, line, close];
    OneLine(open, line, close);
    assert lines[0] == open && lines[1] == line && lines[2] == close;
    assert Rejects(lines, 1) <==> Unsupported(line);
    OneLineCovers(open, line, close, INCLUDE, uri, breaks);
    OneLineCovers(open, line, close, EXCLUDE, uri, breaks);
  }

  lemma OneLineCovers(open: string, line: string, close: string, keyword: string, uri: string, breaks: set<char>)
    requires Opens(open) && Closes(close) && !Boundary(line)
    ensures Mentions([open, line, close], keyword) <==> Starts(line, keyword)
    ensures Covered([open, line, close], keyword, uri, breaks) <==>
      Starts(line, keyword) && GlobMatchesPrefix(WithoutSpaces(Argument(line, keyword)), uri, breaks)
  {
    forall glob
      ensures GivesSome([open, line, close], keyword, glob)
        <==> Starts(line, keyword) && glob == Argument(line, keyword)
    {
      OneLineGives(open, line, close, keyword, glob);
    }
    if Starts(line, keyword) {
      assert GivesSome([open, line, close], keyword, Argument(line, keyword));
    }
  }

  /** A script with one include line runs where the glob on it matches, and nowhere else. */
  lemma IncludeRuns(glob: string, uri: string, breaks: set<char>)
    requires Trimmed(glob)
    ensures Runs(["// ==UserScript==", "// @include " + glob, "// ==/UserScript=="], true, uri, breaks)
      <==> GlobMatchesPrefix(WithoutSpaces(glob), uri, breaks)
  {
    var line := "// @include " + glob;
    assert line == [] + "// @include" + " " + glob + [];
    LineGives([], "// @include", " ", glob, []);
    IncludeOnly(line);
    Markers();
    OneLineRuns("// ==UserScript==", line, "// ==/UserScript==", uri, breaks);
  }

  /** A script with one exclude line runs where the glob on it does not match. */
  lemma ExcludeRuns(glob: string, uri: string, breaks: set<char>)
    requires Trimmed(glob)
    ensures Runs(["// ==UserScript==", "// @exclude " + glob, "// ==/UserScript=="], true, uri, breaks)
      <==> !GlobMatchesPrefix(WithoutSpaces(glob), uri, breaks)
  {
    var line := "// @exclude " + glob;
    assert line == [] + "// @exclude" + " " + glob + [];
    LineGives([], "// @exclude", " ", glob, []);
    ExcludeOnly(line);
    Markers();
    OneLineRuns("// ==UserScript==", line, "// ==/UserScript==", uri, breaks);
  }

  /** A script that requires something, or has a resource, runs nowhere. */
  lemma RequireNeverRuns(rest: string, uri: string, breaks: set<char>)
    ensures !Runs(["// ==UserScript==", "// @require" + rest, "// ==/UserScript=="], true, uri, breaks)
    ensures !Runs(["// ==UserScript==", "// @resource" + rest, "// ==/UserScript=="], true, uri, breaks)
  {
    Markers();
    StartsWith("// @require", rest);
    StartsWith("// @resource", rest);
    NoMark("// @require" + rest);
    NoMark("// @resource" + rest);
    OneLineRuns("// ==UserScript==", "// @require" + rest, "// ==/UserScript==", uri, breaks);
    OneLineRuns("// ==UserScript==", "// @resource" + rest, "// ==/UserScript==", uri, breaks);
  }
}
