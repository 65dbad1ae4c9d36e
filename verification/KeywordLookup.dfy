/**
 * From a keyword list to the lexer's answer: what the generated `parseKeyword` returns.
 */
module KeywordLookup {
  import opened Options
  import opened KeywordTrie
  import opened KeywordWeights
  import opened PackedCompare
  import opened KeywordCode
  import opened KeywordStops

  /** The tree the generator prints. */
  function Generated(keywords: seq<(Word, Token)>, weights: map<Word, real>): Node {
    FillOut(Coalesced(keywords), [], weights)
  }

  function MaxTokenLength(keywords: seq<(Word, Token)>, weights: map<Word, real>): nat {
    MaxLength(Generated(keywords, weights)) + 1
  }

  /** The code goes on with a character that may be part of an identifier, written out or escaped. */
  ghost predicate Continues(code: seq<Unit>, identPart: Unit -> bool)
    requires code != []
  {
    identPart(code[0]) || exists e, u :: Spells(e, u) && e <= code && identPart(u)
  }

  /** The lexer can be at this keyword: it is next in the code, and no identifier part follows it. */
  ghost predicate Matches(keyword: Word, code: seq<Unit>, identPart: Unit -> bool) {
    keyword <= code && |keyword| < |code| && !Continues(code[|keyword|..], identPart)
  }

  /** Keywords are written in 7-bit characters that may be part of an identifier. */
  ghost predicate Lexical(keywords: seq<(Word, Token)>, identPart: Unit -> bool) {
    forall k, c :: k in Table(keywords) && c in k ==> c < 0x80 && identPart(c)
  }

  lemma GeneratedShape(keywords: seq<(Word, Token)>, weights: map<Word, real>)
    ensures var n := Generated(keywords, weights); NodeOk(n) && n.full == []
  {
    CoalescedShape(keywords);
    FillOutShape(Coalesced(keywords), [], weights);
  }

  lemma GeneratedHolds(keywords: seq<(Word, Token)>, weights: map<Word, real>, s: Word)
    ensures Holds(Generated(keywords, weights), s) == Get(Table(keywords), s)
  {
    CoalescedShape(keywords);
    CoalescedFind(keywords, s);
    FillOutHolds(Coalesced(keywords), [], weights, s);
    assert [] + Coalesced(keywords).prefix + s == s;
  }

  /** `maxTokenLength` is one more than the length of the longest keyword. */
  lemma LongestKeyword(keywords: seq<(Word, Token)>, weights: map<Word, real>)
    ensures forall k :: k in Table(keywords) ==> |k| < MaxTokenLength(keywords, weights)
    ensures keywords != [] ==> exists k :: k in Table(keywords) && |k| + 1 == MaxTokenLength(keywords, weights)
  {
    var n := Generated(keywords, weights);
    GeneratedShape(keywords, weights);
    forall k | k in Table(keywords)
      ensures |k| < MaxTokenLength(keywords, weights)
    {
      GeneratedHolds(keywords, weights, k);
      LengthBounds(n, k);
    }
    if keywords != [] {
      GeneratedHolds(keywords, weights, keywords[|keywords| - 1].0);
      var k := LongestWord(n);
      GeneratedHolds(keywords, weights, k);
    }
  }

  // ---------------------------------------------------------------- which lists can be compiled

  ghost function Words(keywords: seq<(Word, Token)>): iset<Word> {
    iset k | k in Table(keywords)
  }

  /**
   * There is a COMPARE_n macro for every test: along every keyword, the points where the keyword could end or
   * where another one parts from it are at most eight characters from one to the next.
   */
  ghost predicate MacrosSuffice(keywords: seq<(Word, Token)>) {
    StopsClose(Words(keywords), [])
  }

  lemma EdgesFromKeywords(keywords: seq<(Word, Token)>, weights: map<Word, real>)
    ensures EdgesFit(Generated(keywords, weights)) <==> MacrosSuffice(keywords)
  {
    var n := Generated(keywords, weights);
    GeneratedShape(keywords, weights);
    CoalescedShape(keywords);
    FillOutNeeded(Coalesced(keywords), [], weights);
    forall s
      ensures s in WordsOf(n) <==> s in Words(keywords)
    {
      GeneratedHolds(keywords, weights, s);
    }
    assert WordsOf(n) == Words(keywords);
    if EdgesFit(n) {
      FitMeansClose(n);
    }
    if MacrosSuffice(keywords) {
      CloseMeansFit(n);
    }
  }

  /** One keyword of more than eight characters is enough to fail. */
  lemma LoneLongKeyword(k: Word, value: Token, weights: map<Word, real>)
    requires |k| > 8
    ensures !MacrosSuffice([(k, value)]) && !Compiles(Emit(Generated([(k, value)], weights)))
  {
    var keywords := [(k, value)];
    assert keywords[..0] == [];
    assert Table(keywords) == map[k := value];
    var words := Words(keywords);
    assert k in words && k[..0] == [];
    forall j | 0 < j <= 8
      ensures !Stop(words, [], k[..j])
    {
      assert forall a :: a in words ==> a == k;
    }
    assert !StopsSoon(words, [], k, 0);
    GeneratedIsSafe(keywords, weights);
  }

  /** For example "interface". */
  lemma InterfaceAlone(weights: map<Word, real>)
    ensures !Compiles(Emit(Generated([([105, 110, 116, 101, 114, 102, 97, 99, 101], "INTERFACE")], weights)))
  {
    LoneLongKeyword([105, 110, 116, 101, 114, 102, 97, 99, 101], "INTERFACE", weights);
  }

  // ---------------------------------------------------------------- what the code answers

  /** The words on the tree's nodes are made of the keywords' characters. */
  lemma {:induction false} AsciiNodes(n: Node)
    requires NodeOk(n) && forall s :: Holds(n, s).Some? ==> Ascii(s)
    ensures AsciiBelow(n)
    decreases n
  {
    forall kid | kid in n.kids
      ensures Ascii(kid.full) && AsciiBelow(kid)
    {
      var k := HasKeyword(kid);
      HoldsInMember(n.kids, kid, k);
      assert Holds(n, k).Some?;
      assert forall c :: c in kid.full ==> c in k;
      forall s | Holds(kid, s).Some?
        ensures Ascii(s)
      {
        HoldsExtends(kid, s);
        HoldsInMember(n.kids, kid, s);
        assert Holds(n, s).Some?;
      }
      AsciiNodes(kid);
    }
  }

  lemma LongerBlocks(keywords: seq<(Word, Token)>, a: Word, b: Word, code: seq<Unit>, identPart: Unit -> bool)
    requires Lexical(keywords, identPart) && b in Table(keywords)
    requires a <= code && b <= code && |a| < |b|
    ensures |a| < |code| && Continues(code[|a|..], identPart)
  {
    assert code[|a|..][0] == code[|a|] == b[|a|] && b[|a|] in b;
  }

  /** At most one keyword can match: a longer one would make the shorter one be followed by an identifier part. */
  lemma MatchIsUnique(keywords: seq<(Word, Token)>, a: Word, b: Word, code: seq<Unit>, identPart: Unit -> bool)
    requires Lexical(keywords, identPart) && a in Table(keywords) && b in Table(keywords)
    requires Matches(a, code, identPart) && Matches(b, code, identPart)
    ensures a == b
  {
    if |a| < |b| {
      LongerBlocks(keywords, a, b, code, identPart);
    } else if |b| < |a| {
      LongerBlocks(keywords, b, a, code, identPart);
    }
  }

  /** The generated code can be run wherever `maxTokenLength` characters are left. */
  lemma GeneratedIsSafe(keywords: seq<(Word, Token)>, weights: map<Word, real>)
    ensures Reach(Emit(Generated(keywords, weights))) <= MaxTokenLength(keywords, weights)
    ensures keywords != [] ==> Reach(Emit(Generated(keywords, weights))) == MaxTokenLength(keywords, weights)
    ensures Compiles(Emit(Generated(keywords, weights))) <==> MacrosSuffice(keywords)
  {
    var n := Generated(keywords, weights);
    GeneratedShape(keywords, weights);
    EmitReach(n);
    EmitCompiles(n);
    EdgesFromKeywords(keywords, weights);
    if keywords != [] {
      var k := keywords[|keywords| - 1].0;
      GeneratedHolds(keywords, weights, k);
    }
  }

  /**
   * The generated `parseKeyword` answers with a keyword's token, length and name exactly when that keyword is
   * next in the code and not followed by an identifier part; otherwise it answers IDENT.
   */
  lemma ParseKeywordCorrect(
    keywords: seq<(Word, Token)>, weights: map<Word, real>, code: seq<Unit>, target: Target)
    requires Lexical(keywords, target.identPart)
    requires MacrosSuffice(keywords)
    requires Fits(code, target.wide) && |code| >= MaxTokenLength(keywords, weights)
    ensures var prog := Emit(Generated(keywords, weights)); Compiles(prog) && Reach(prog) <= |code|
    ensures var r := Run(Emit(Generated(keywords, weights)), code, target);
      && (forall k :: k in Table(keywords) && Matches(k, code, target.identPart)
            ==> r == Keyword(Table(keywords)[k], |k|, k))
      && (r.Keyword? ==> r.name in Table(keywords) && Matches(r.name, code, target.identPart))
  {
    var n := Generated(keywords, weights);
    GeneratedShape(keywords, weights);
    GeneratedIsSafe(keywords, weights);
    forall s | Holds(n, s).Some?
      ensures Ascii(s)
    {
      GeneratedHolds(keywords, weights, s);
    }
    AsciiNodes(n);
    var r := Run(Emit(n), code, target);
    if r.Keyword? {
      RunHit(n, code, target);
      GeneratedHolds(keywords, weights, r.name);
      IdentPartFollows(code, |r.name|, target.identPart);
    }
    forall k | k in Table(keywords) && Matches(k, code, target.identPart)
      ensures r == Keyword(Table(keywords)[k], |k|, k)
    {
      GeneratedHolds(keywords, weights, k);
      IdentPartFollows(code, |k|, target.identPart);
      if r.Keyword? {
        MatchIsUnique(keywords, k, r.name, code, target.identPart);
      } else {
        RunMiss(n, code, target, k);
      }
    }
  }

  /**
   * A keyword that goes on with the escape of an identifier part is an identifier, where a backslash itself is not
   * part of identifiers.
   */
  lemma EscapeEndsNoKeyword(
    keywords: seq<(Word, Token)>, weights: map<Word, real>, code: seq<Unit>, target: Target,
    k: Word, e: seq<Unit>, u: Unit)
    requires Lexical(keywords, target.identPart) && MacrosSuffice(keywords)
    requires Fits(code, target.wide) && |code| >= MaxTokenLength(keywords, weights)
    requires k in Table(keywords) && k + e <= code && Spells(e, u) && target.identPart(u)
    requires !target.identPart('\\' as int)
    ensures Compiles(Emit(Generated(keywords, weights))) && Reach(Emit(Generated(keywords, weights))) <= |code|
    ensures Run(Emit(Generated(keywords, weights)), code, target) == Identifier
  {
    ParseKeywordCorrect(keywords, weights, code, target);
    var r := Run(Emit(Generated(keywords, weights)), code, target);
    if r.Keyword? {
      NothingMatches(keywords, code, target.identPart, k, e, u, r.name);
    }
  }

  lemma NothingMatches(
    keywords: seq<(Word, Token)>, code: seq<Unit>, identPart: Unit -> bool, k: Word, e: seq<Unit>, u: Unit, name: Word)
    requires Lexical(keywords, identPart) && k in Table(keywords) && name in Table(keywords)
    requires k + e <= code && Spells(e, u) && identPart(u) && !identPart('\\' as int)
    ensures !Matches(name, code, identPart)
  {
    SplitPrefix(k, e, code);
    assert '\\' as int !in name;
    if |name| < |k| && name <= code {
      LongerBlocks(keywords, name, k, code, identPart);
    }
  }

  lemma SplitPrefix(k: Word, e: seq<Unit>, code: seq<Unit>)
    requires k + e <= code
    ensures k <= code && e <= code[|k|..] && (e != [] ==> code[|k|] == e[0])
  {
    assert code[..|k + e|] == k + e;
  }
}
