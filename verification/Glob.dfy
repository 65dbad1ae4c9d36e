/**
 * addons.c: user scripts name the pages they run on with globs, which `addons_convert_to_simple_regexp`
 * rewrites as regular expressions for GRegex.
 */
module Glob {
  import opened Options

  // ---------------------------------------------------------------- the conversion

  /** The characters the conversion escapes. */
  const META: set<char> := {'.', '?', '^', '$', '+', '{', '[', '|', '(', ')', ']', '\\'}

  function ConvertChar(c: char): (s: string)
    ensures |s| <= 2
  {
    if c == '*' then ['.', '*']
    else if c in META then ['\\', c]
    else if c == ' ' then []
    else [c]
  }

  function ConvertRest(pattern: string): string {
    if pattern == [] then [] else ConvertChar(pattern[0]) + ConvertRest(pattern[1..])
  }

  function Convert(pattern: string): string {
    "^" + ConvertRest(pattern)
  }

  const NUL: char := '\0'

  lemma {:induction false} ConvertRestAppend(a: string, c: char)
    ensures ConvertRest(a + [c]) == ConvertRest(a) + ConvertChar(c)
  {
    if a == [] {
      assert [c][1..] == [] && a + [c] == [c];
    } else {
      assert (a + [c])[1..] == a[1..] + [c];
      ConvertRestAppend(a[1..], c);
    }
  }

  lemma ConvertAppend(pattern: string, i: nat)
    requires i < |pattern|
    ensures Convert(pattern[..i + 1]) == Convert(pattern[..i]) + ConvertChar(pattern[i])
  {
    assert pattern[..i + 1] == pattern[..i] + [pattern[i]];
    ConvertRestAppend(pattern[..i], pattern[i]);
  }

  /** Writing one character at the end of what the buffer holds; NULs fill the rest. */
  method PutChar(dest: array<char>, pos: nat, c: char)
    requires pos < dest.Length && forall j :: pos <= j < dest.Length ==> dest[j] == NUL
    modifies dest
    ensures dest[..pos + 1] == old(dest[..pos]) + [c]
    ensures forall j :: pos + 1 <= j < dest.Length ==> dest[j] == NUL
  {
    dest[pos] := c;
  }

  /** The switch of the conversion loop. */
  method PutConverted(dest: array<char>, pos: nat, c: char) returns (next: nat)
    requires pos + 2 <= dest.Length && forall j :: pos <= j < dest.Length ==> dest[j] == NUL
    modifies dest
    ensures pos <= next <= pos + 2 && dest[..next] == old(dest[..pos]) + ConvertChar(c)
    ensures forall j :: next <= j < dest.Length ==> dest[j] == NUL
  {
    next := pos;
    if c == '*' {
      PutChar(dest, pos, '.');
      PutChar(dest, pos + 1, c);
      next := pos + 2;
    } else if c in META {
      PutChar(dest, pos, '\\');
      PutChar(dest, pos + 1, c);
      next := pos + 2;
    } else if c == ' ' {
      assert dest[..next] == old(dest[..pos]) + [];
    } else {
      PutChar(dest, pos, c);
      next := pos + 1;
    }
  }

  /**
   * `addons_convert_to_simple_regexp`: the zeroed buffer of 2 * len + 2 characters ends up holding the
   * converted pattern and a terminating NUL.
   */
  method ConvertToSimpleRegexp(pattern: string) returns (dest: array<char>, pos: nat)
    ensures fresh(dest) && dest.Length == 2 * |pattern| + 2
    ensures pos < dest.Length && dest[..pos] == Convert(pattern)
    ensures forall i :: pos <= i < dest.Length ==> dest[i] == NUL
  {
    var len := |pattern|;
    dest := new char[len * 2 + 2](_ => NUL);
    PutChar(dest, 0, '^');
    pos := 1;
    for i := 0 to len
      invariant 1 <= pos <= 2 * i + 1
      invariant dest[..pos] == Convert(pattern[..i])
      invariant forall j :: pos <= j < dest.Length ==> dest[j] == NUL
    {
      var c := pattern[i];
      pos := PutConverted(dest, pos, c);
      ConvertAppend(pattern, i);
    }
    assert pattern[..len] == pattern;
  }

  // ---------------------------------------------------------------- regular expressions

  datatype Atom = Any | Literal(c: char)

  /** An atom, once or any number of times. */
  datatype Item = Item(atom: Atom, starred: bool)

  /** The characters that mean something else than themselves in a regular expression, outside brackets. */
  predicate IsMetacharacter(c: char) {
    c in {'\\', '^', '$', '.', '[', '|', '(', ')', '?', '*', '+', '{'}
  }

  predicate IsAlphanumeric(c: char) {
    'a' <= c <= 'z' || 'A' <= c <= 'Z' || '0' <= c <= '9'
  }

  /** One atom: a backslash takes the meaning off any character that is not a letter or a digit. */
  function ParseAtom(s: string): Option<(Atom, string)> {
    if s == [] then None
    else if s[0] == '.' then Some((Any, s[1..]))
    else if s[0] == '\\' then
      if |s| > 1 && !IsAlphanumeric(s[1]) then Some((Literal(s[1]), s[2..])) else None
    else if IsMetacharacter(s[0]) then None
    else Some((Literal(s[0]), s[1..]))
  }

  /** The part of the syntax that the conversion can produce: atoms, each with an optional star. */
  function ParseItems(s: string): Option<seq<Item>> {
    if s == [] then Some([])
    else
      var a := ParseAtom(s);
      if a.None? then None
      else
        var (atom, rest) := a.value;
        var starred := rest != [] && rest[0] == '*';
        var tail := ParseItems(if starred then rest[1..] else rest);
        if tail.None? then None else Some([Item(atom, starred)] + tail.value)
  }

  /** A regular expression that starts with `^`. */
  function ParseAnchored(s: string): Option<seq<Item>> {
    if s != [] && s[0] == '^' then ParseItems(s[1..]) else None
  }

  /** `.` matches everything but line breaks. */
  predicate MatchesAtom(a: Atom, c: char, breaks: set<char>) {
    match a
    case Any => c !in breaks
    case Literal(l) => c == l
  }

  /** The language of a sequence of items. */
  predicate InLanguage(items: seq<Item>, s: string, breaks: set<char>)
    decreases |items|, |s|
  {
    if items == [] then s == []
    else
      var here := s != [] && MatchesAtom(items[0].atom, s[0], breaks);
      if items[0].starred then
        InLanguage(items[1..], s, breaks) || (here && InLanguage(items, s[1..], breaks))
      else
        here && InLanguage(items[1..], s[1..], breaks)
  }

  /** `g_regex_match_simple` for an expression anchored at the start: some prefix is in its language. */
  predicate RegexMatchSimple(re: string, subject: string, breaks: set<char>) {
    var items := ParseAnchored(re);
    items.Some? && exists n :: 0 <= n <= |subject| && InLanguage(items.value, subject[..n], breaks)
  }

  // ---------------------------------------------------------------- globs

  /** A glob matches a string: a star stands for any stretch of characters other than line breaks. */
  ghost predicate GlobMatches(glob: string, s: string, breaks: set<char>)
    decreases |glob|
  {
    if glob == [] then s == []
    else if glob[0] == '*' then
      exists k :: 0 <= k <= |s| && Free(s[..k], breaks) && GlobMatches(glob[1..], s[k..], breaks)
    else
      s != [] && s[0] == glob[0] && GlobMatches(glob[1..], s[1..], breaks)
  }

  ghost predicate Free(s: string, breaks: set<char>) {
    forall c :: c in s ==> c !in breaks
  }

  function WithoutSpaces(s: string): string {
    if s == [] then [] else (if s[0] == ' ' then [] else [s[0]]) + WithoutSpaces(s[1..])
  }

  lemma Regroup(a: string, b: string, c: string, d: string)
    ensures a + (b + c + d) == a + b + c + d
  {
  }

  /** Spaces are taken out, wherever they are, and nothing else. */
  lemma {:induction false} SpacesTakenOut(a: string, c: char, b: string)
    ensures WithoutSpaces([]) == []
    ensures WithoutSpaces(a + [c] + b) == WithoutSpaces(a) + (if c == ' ' then "" else [c]) + WithoutSpaces(b)
    decreases a
  {
    if a == [] {
      assert a + [c] + b == [c] + b && ([c] + b)[1..] == b;
    } else {
      var first := if a[0] == ' ' then "" else [a[0]];
      assert (a + [c] + b)[1..] == a[1..] + [c] + b;
      SpacesTakenOut(a[1..], c, b);
      assert WithoutSpaces(a) == first + WithoutSpaces(a[1..]);
      Regroup(first, WithoutSpaces(a[1..]), if c == ' ' then "" else [c], WithoutSpaces(b));
    }
  }

  function ItemFor(c: char): Item {
    if c == '*' then Item(Any, true) else Item(Literal(c), false)
  }

  function ItemsFor(glob: string): seq<Item> {
    if glob == [] then [] else [ItemFor(glob[0])] + ItemsFor(glob[1..])
  }

  lemma {:induction false} ConvertNotStarred(pattern: string)
    ensures ConvertRest(pattern) == [] || ConvertRest(pattern)[0] != '*'
  {
    if pattern != [] {
      ConvertNotStarred(pattern[1..]);
    }
  }

  /** The conversion of one character in front of an expression that parses. */
  lemma ParseOne(c: char, rest: string, s: string, items: seq<Item>)
    requires c != ' ' && (rest == [] || rest[0] != '*') && ParseItems(rest) == Some(items)
    requires s == ConvertChar(c) + rest
    ensures ParseItems(s) == Some([ItemFor(c)] + items)
  {
    if c == '*' {
      DotAtom(['*'] + rest, s);
      ParseItem(s, Any, ['*'] + rest, true, rest, items);
    } else {
      LiteralAtom(c, rest, s);
      ParseItem(s, Literal(c), rest, false, rest, items);
    }
  }

  /** A character other than a star, escaped or not, is read as itself. */
  lemma LiteralAtom(c: char, tail: string, s: string)
    requires c != ' ' && c != '*' && s == ConvertChar(c) + tail
    ensures ParseAtom(s) == Some((Literal(c), tail))
  {
    if c in META {
      EscapedAtom(c, tail, s);
    } else {
      PlainAtom(c, tail, s);
    }
  }

  lemma DotAtom(tail: string, s: string)
    requires s == ['.'] + tail
    ensures ParseAtom(s) == Some((Any, tail))
  {
    assert s[1..] == tail;
  }

  lemma EscapedAtom(c: char, tail: string, s: string)
    requires c in META && s == ['\\', c] + tail
    ensures ParseAtom(s) == Some((Literal(c), tail))
  {
    assert s[2..] == tail && !IsAlphanumeric(c);
  }

  lemma PlainAtom(c: char, tail: string, s: string)
    requires c !in META && c != '*' && s == [c] + tail
    ensures ParseAtom(s) == Some((Literal(c), tail))
  {
    assert s[1..] == tail && !IsMetacharacter(c);
  }

  /** An atom, perhaps a star, and the items after it. */
  lemma ParseItem(s: string, atom: Atom, tail: string, starred: bool, rest: string, items: seq<Item>)
    requires s != [] && ParseAtom(s) == Some((atom, tail)) && ParseItems(rest) == Some(items)
    requires starred == (tail != [] && tail[0] == '*') && rest == if starred then tail[1..] else tail
    ensures ParseItems(s) == Some([Item(atom, starred)] + items)
  {
  }

  /** The converted pattern is a regular expression, with one item for each character that is not a space. */
  lemma {:induction false} ConvertParses(pattern: string)
    ensures ParseItems(ConvertRest(pattern)) == Some(ItemsFor(WithoutSpaces(pattern)))
  {
    if pattern != [] {
      var c, rest, glob := pattern[0], ConvertRest(pattern[1..]), WithoutSpaces(pattern[1..]);
      ConvertParses(pattern[1..]);
      if c == ' ' {
        assert ConvertRest(pattern) == rest && WithoutSpaces(pattern) == glob;
      } else {
        ConvertNotStarred(pattern[1..]);
        ParseOne(c, rest, ConvertChar(c) + rest, ItemsFor(glob));
        assert WithoutSpaces(pattern) == [c] + glob && ([c] + glob)[1..] == glob;
      }
    }
  }

  lemma {:induction false} StarLanguage(items: seq<Item>, s: string, breaks: set<char>)
    requires items != [] && items[0] == Item(Any, true)
    ensures InLanguage(items, s, breaks)
      <==> exists k :: 0 <= k <= |s| && Free(s[..k], breaks) && InLanguage(items[1..], s[k..], breaks)
    decreases |s|
  {
    assert s[0..] == s && s[..0] == [];
    if s != [] {
      StarLanguage(items, s[1..], breaks);
      if s[0] !in breaks && InLanguage(items, s[1..], breaks) {
        var k :| 0 <= k <= |s[1..]| && Free(s[1..][..k], breaks) && InLanguage(items[1..], s[1..][k..], breaks);
        assert s[..k + 1] == [s[0]] + s[1..][..k] && s[k + 1..] == s[1..][k..];
        assert Free(s[..k + 1], breaks);
      }
      if k :| 0 < k <= |s| && Free(s[..k], breaks) && InLanguage(items[1..], s[k..], breaks) {
        assert s[0] in s[..k];
        assert s[1..][..k - 1] == s[..k][1..] && s[1..][k - 1..] == s[k..];
        assert Free(s[1..][..k - 1], breaks);
      }
    }
  }

  lemma {:induction false} GlobLanguage(glob: string, s: string, breaks: set<char>)
    ensures InLanguage(ItemsFor(glob), s, breaks) <==> GlobMatches(glob, s, breaks)
    decreases |glob|
  {
    if glob != [] {
      assert ItemsFor(glob)[1..] == ItemsFor(glob[1..]);
      if glob[0] == '*' {
        StarLanguage(ItemsFor(glob), s, breaks);
        forall k | 0 <= k <= |s|
          ensures InLanguage(ItemsFor(glob[1..]), s[k..], breaks) <==> GlobMatches(glob[1..], s[k..], breaks)
        {
          GlobLanguage(glob[1..], s[k..], breaks);
        }
      } else if s != [] {
        GlobLanguage(glob[1..], s[1..], breaks);
      }
    }
  }

  /** Some prefix of the URI is matched. */
  ghost predicate GlobMatchesPrefix(glob: string, uri: string, breaks: set<char>) {
    exists n :: 0 <= n <= |uri| && GlobMatches(glob, uri[..n], breaks)
  }

  /** Matching with the converted pattern is matching a prefix with the glob, its spaces removed. */
  lemma ConvertedMatches(pattern: string, uri: string, breaks: set<char>)
    ensures RegexMatchSimple(Convert(pattern), uri, breaks)
      <==> GlobMatchesPrefix(WithoutSpaces(pattern), uri, breaks)
  {
    ConvertParses(pattern);
    assert Convert(pattern)[1..] == ConvertRest(pattern);
    var glob := WithoutSpaces(pattern);
    forall n | 0 <= n <= |uri|
      ensures InLanguage(ItemsFor(glob), uri[..n], breaks) <==> GlobMatches(glob, uri[..n], breaks)
    {
      GlobLanguage(glob, uri[..n], breaks);
    }
  }

  /** In a URI without line breaks, a star stands for any stretch of characters. */
  lemma {:induction false} NoBreaks(glob: string, s: string, breaks: set<char>)
    requires Free(s, breaks)
    ensures GlobMatches(glob, s, breaks) <==> GlobMatches(glob, s, {})
    decreases |glob|
  {
    if glob != [] {
      if glob[0] == '*' {
        forall k | 0 <= k <= |s|
          ensures Free(s[..k], breaks) && Free(s[..k], {})
          ensures GlobMatches(glob[1..], s[k..], breaks) <==> GlobMatches(glob[1..], s[k..], {})
        {
          assert forall c :: c in s[k..] ==> c in s;
          assert forall c :: c in s[..k] ==> c in s;
          NoBreaks(glob[1..], s[k..], breaks);
        }
      } else if s != [] {
        assert forall c :: c in s[1..] ==> c in s;
        NoBreaks(glob[1..], s[1..], breaks);
      }
    }
  }

  lemma ConvertedMatchesPlain(pattern: string, uri: string, breaks: set<char>)
    requires Free(uri, breaks)
    ensures RegexMatchSimple(Convert(pattern), uri, breaks) <==> GlobMatchesPrefix(WithoutSpaces(pattern), uri, {})
  {
    ConvertedMatches(pattern, uri, breaks);
    forall n | 0 <= n <= |uri|
      ensures GlobMatches(WithoutSpaces(pattern), uri[..n], breaks)
        <==> GlobMatches(WithoutSpaces(pattern), uri[..n], {})
    {
      assert forall c :: c in uri[..n] ==> c in uri;
      NoBreaks(WithoutSpaces(pattern), uri[..n], breaks);
    }
  }
}
