/**
 * Where the edges of the generated tree begin and end, told from the keyword list alone: at the stops, which are
 * the keywords themselves and the points where two keywords part.
 */
module KeywordStops {
  import opened Options
  import opened KeywordTrie
  import opened KeywordWeights
  import opened KeywordCode

  /** Two of the words go on after `p` with different units. */
  ghost predicate Parts(words: iset<Word>, p: Word) {
    exists a, b :: a in words && b in words && p < a && p < b && a[|p|] != b[|p|]
  }

  /** A node of the tree below `root` ends here. */
  ghost predicate Stop(words: iset<Word>, root: Word, p: Word) {
    p == root || p in words || Parts(words, p)
  }

  /** A stop comes one to eight units after position `i` of the word. */
  ghost predicate StopsSoon(words: iset<Word>, root: Word, word: Word, i: nat) {
    exists j :: i < j <= i + 8 && j <= |word| && Stop(words, root, word[..j])
  }

  /** On the way along every word, no stop is more than eight units after the one before. */
  ghost predicate StopsClose(words: iset<Word>, root: Word) {
    forall word, i :: word in words && |root| <= i && i + 9 <= |word| && Stop(words, root, word[..i])
      ==> StopsSoon(words, root, word, i)
  }

  ghost function WordsOf(n: Node): iset<Word> {
    iset s | Holds(n, s).Some?
  }

  // ---------------------------------------------------------------- every node is needed

  ghost predicate Needed(n: Node) {
    n.value.Some? || exists a, b :: a in n.kids && b in n.kids && a != b
  }

  ghost predicate AllNeeded(n: Node) {
    forall kid :: kid in n.kids ==> Needed(kid) && AllNeeded(kid)
  }

  lemma {:induction false} FillOutNeeded(t: Trie, prefix: Word, weights: map<Word, real>)
    requires WellFormed(t) && Compact(t)
    ensures AllNeeded(FillOut(t, prefix, weights))
    ensures t.value.Some? || |t.kids| >= 2 ==> Needed(FillOut(t, prefix, weights))
    decreases t, 1
  {
    var full := prefix + t.prefix;
    var kids := FillOutEach(t.kids, full, weights);
    FillOutEachNeeded(t.kids, full, weights);
    SortMembers(kids);
    if |t.kids| >= 2 {
      assert kids[0] == FillOut(t.kids[0], full, weights);
      assert kids[1] == FillOutEach(t.kids[1..], full, weights)[0] == FillOut(t.kids[1], full, weights);
      assert kids[0] in FillOut(t, prefix, weights).kids && kids[1] in FillOut(t, prefix, weights).kids;
    }
  }

  lemma {:induction false} FillOutEachNeeded(kids: seq<Trie>, prefix: Word, weights: map<Word, real>)
    requires forall kid :: kid in kids ==> WellFormed(kid) && Compact(kid) && (kid.value.Some? || |kid.kids| >= 2)
    ensures forall n :: n in FillOutEach(kids, prefix, weights) ==> Needed(n) && AllNeeded(n)
    decreases kids, 0
  {
    if kids != [] {
      FillOutNeeded(kids[0], prefix, weights);
      FillOutEachNeeded(kids[1..], prefix, weights);
    }
  }

  // ---------------------------------------------------------------- the words below a node

  /** Below every node there is a keyword that extends the node's word. */
  lemma {:induction false} HasKeyword(n: Node) returns (k: Word)
    requires NodeOk(n) && (n.value.Some? || n.kids != [])
    ensures n.full <= k && Holds(n, k).Some?
    decreases n
  {
    if n.value.Some? {
      k := n.full;
    } else {
      var kid := n.kids[0];
      k := HasKeyword(kid);
      assert kid.full == n.full + kid.prefix && |k| > |n.full|;
      assert HoldsFull(kid, k).Some?;
    }
  }

  /** A word held by one child is held by the parent. */
  lemma {:induction false} HoldsInMember(kids: seq<Node>, kid: Node, s: Word)
    requires kid in kids && HoldsFull(kid, s).Some?
    ensures HoldsIn(kids, s).Some?
  {
    if HoldsFull(kids[0], s).None? {
      HoldsInMember(kids[1..], kid, s);
    }
  }

  lemma {:induction false} HoldsExtends(n: Node, s: Word)
    requires NodeOk(n) && Holds(n, s).Some?
    ensures n.full <= s
    decreases n
  {
    if s != n.full {
      var kid := Holder(n.kids, s);
      assert kid.full == n.full + kid.prefix;
    }
  }

  lemma KidWord(n: Node, kid: Node, s: Word)
    requires NodeOk(n) && kid in n.kids && Holds(kid, s).Some?
    ensures kid.full <= s && Holds(n, s).Some?
  {
    HoldsExtends(kid, s);
    HoldsInMember(n.kids, kid, s);
    assert kid.full == n.full + kid.prefix;
  }

  /** A word that goes on like a child is a word of that child. */
  lemma WordInKid(n: Node, kid: Node, s: Word)
    requires NodeOk(n) && kid in n.kids && Holds(n, s).Some?
    requires |n.full| < |s| && s[|n.full|] == kid.full[|n.full|]
    ensures kid.full <= s && Holds(kid, s).Some?
  {
    var other := Holder(n.kids, s);
    assert other == kid;
  }

  /** Between a node and its child there is no stop. */
  lemma NoStopInside(n: Node, kid: Node, p: Word)
    requires NodeOk(n) && kid in n.kids && n.full < p < kid.full
    ensures !Stop(WordsOf(n), n.full, p)
  {
    var depth := |n.full|;
    assert p[depth] == kid.full[depth];
    if p in WordsOf(n) {
      WordInKid(n, kid, p);
    }
    forall a | a in WordsOf(n) && p < a
      ensures a[|p|] == kid.full[|p|]
    {
      assert a[depth] == p[depth];
      WordInKid(n, kid, a);
    }
  }

  /** A child is a stop. */
  lemma KidIsStop(n: Node, kid: Node)
    requires NodeOk(n) && AllNeeded(n) && kid in n.kids
    ensures Stop(WordsOf(n), n.full, kid.full)
  {
    if kid.value.Some? {
      KidWord(n, kid, kid.full);
    } else {
      var a, b :| a in kid.kids && b in kid.kids && a != b;
      var u := HasKeyword(a);
      var v := HasKeyword(b);
      KidWord(kid, a, u);
      KidWord(kid, b, v);
      KidWord(n, kid, u);
      KidWord(n, kid, v);
      assert a.full == kid.full + a.prefix && b.full == kid.full + b.prefix;
      assert u[|kid.full|] == a.full[|kid.full|] && v[|kid.full|] == b.full[|kid.full|];
      assert u in WordsOf(n) && v in WordsOf(n) && kid.full < u && kid.full < v;
    }
  }

  /** From a child on, its stops are those of the parent. */
  lemma StopBelow(n: Node, kid: Node, p: Word)
    requires NodeOk(n) && AllNeeded(n) && kid in n.kids && kid.full <= p
    ensures Stop(WordsOf(n), n.full, p) <==> Stop(WordsOf(kid), kid.full, p)
  {
    KidIsStop(n, kid);
    assert kid.full == n.full + kid.prefix;
    forall s | p <= s
      ensures s in WordsOf(n) <==> s in WordsOf(kid)
    {
      assert s[|n.full|] == p[|n.full|] == kid.full[|n.full|];
      if Holds(n, s).Some? {
        WordInKid(n, kid, s);
      }
      if Holds(kid, s).Some? {
        KidWord(n, kid, s);
      }
    }
  }

  lemma {:induction false} KidLength(kids: seq<Node>, kid: Node)
    requires kid in kids
    ensures MaxLength(kid) <= MaxLengthIn(kids)
  {
    if kid != kids[0] {
      KidLength(kids[1..], kid);
    }
  }

  lemma {:induction false} LongestKid(kids: seq<Node>) returns (kid: Node)
    requires kids != []
    ensures kid in kids && MaxLength(kid) == MaxLengthIn(kids)
  {
    kid := kids[0];
    if |kids| > 1 {
      var other := LongestKid(kids[1..]);
      kid := if MaxLength(other) > MaxLength(kid) then other else kid;
    }
  }

  lemma {:induction false} LengthBounds(n: Node, s: Word)
    requires NodeOk(n) && Holds(n, s).Some?
    ensures |s| <= MaxLength(n)
    decreases n
  {
    if s != n.full {
      var kid := Holder(n.kids, s);
      LengthBounds(kid, s);
      KidLength(n.kids, kid);
    }
  }

  /** The longest full prefix is a word of the tree. */
  lemma {:induction false} LongestWord(n: Node) returns (k: Word)
    requires NodeOk(n) && (n.value.Some? || n.kids != [])
    ensures Holds(n, k).Some? && |k| == MaxLength(n)
    decreases n
  {
    if n.kids == [] {
      k := n.full;
    } else {
      var kid := LongestKid(n.kids);
      k := LongestWord(kid);
      KidWord(n, kid, k);
    }
  }

  // ---------------------------------------------------------------- edges and stops

  lemma {:induction false} FitMeansClose(n: Node)
    requires NodeOk(n) && AllNeeded(n) && EdgesFit(n)
    ensures StopsClose(WordsOf(n), n.full)
    decreases n
  {
    forall word, i | word in WordsOf(n) && |n.full| <= i && i + 9 <= |word| && Stop(WordsOf(n), n.full, word[..i])
      ensures StopsSoon(WordsOf(n), n.full, word, i)
    {
      FitMeansSoon(n, word, i);
    }
  }

  lemma {:induction false} FitMeansSoon(n: Node, word: Word, i: nat)
    requires NodeOk(n) && AllNeeded(n) && EdgesFit(n)
    requires word in WordsOf(n) && |n.full| <= i && i + 9 <= |word| && Stop(WordsOf(n), n.full, word[..i])
    ensures StopsSoon(WordsOf(n), n.full, word, i)
    decreases n
  {
    var kid := Holder(n.kids, word);
    assert kid.full == n.full + kid.prefix;
    if i < |kid.full| {
      if i > |n.full| {
        NoStopInside(n, kid, word[..i]);
      }
      KidIsStop(n, kid);
      assert word[..|kid.full|] == kid.full;
    } else {
      StopBelow(n, kid, word[..i]);
      FitMeansSoon(kid, word, i);
      var j :| i < j <= i + 8 && j <= |word| && Stop(WordsOf(kid), kid.full, word[..j]);
      StopBelow(n, kid, word[..j]);
    }
  }

  lemma {:induction false} CloseMeansFit(n: Node)
    requires NodeOk(n) && AllNeeded(n) && StopsClose(WordsOf(n), n.full)
    ensures EdgesFit(n)
    decreases n
  {
    forall kid | kid in n.kids
      ensures |kid.prefix| <= 8 && EdgesFit(kid)
    {
      ShortEdge(n, kid);
      forall word, i | word in WordsOf(kid) && |kid.full| <= i && i + 9 <= |word|
                       && Stop(WordsOf(kid), kid.full, word[..i])
        ensures StopsSoon(WordsOf(kid), kid.full, word, i)
      {
        CloseBelow(n, kid, word, i);
      }
      CloseMeansFit(kid);
    }
  }

  lemma ShortEdge(n: Node, kid: Node)
    requires NodeOk(n) && AllNeeded(n) && StopsClose(WordsOf(n), n.full) && kid in n.kids
    ensures |kid.prefix| <= 8
  {
    if |kid.prefix| > 8 {
      var word := HasKeyword(kid);
      var i := |n.full|;
      KidWord(n, kid, word);
      assert kid.full == n.full + kid.prefix && word[..i] == n.full;
      assert StopsSoon(WordsOf(n), n.full, word, i);
      var j :| i < j <= i + 8 && j <= |word| && Stop(WordsOf(n), n.full, word[..j]);
      assert word[..j] == kid.full[..j];
      NoStopInside(n, kid, word[..j]);
    }
  }

  lemma CloseBelow(n: Node, kid: Node, word: Word, i: nat)
    requires NodeOk(n) && AllNeeded(n) && StopsClose(WordsOf(n), n.full) && kid in n.kids
    requires word in WordsOf(kid) && |kid.full| <= i && i + 9 <= |word| && Stop(WordsOf(kid), kid.full, word[..i])
    ensures StopsSoon(WordsOf(kid), kid.full, word, i)
  {
    KidWord(n, kid, word);
    StopBelow(n, kid, word[..i]);
    assert StopsSoon(WordsOf(n), n.full, word, i);
    var j :| i < j <= i + 8 && j <= |word| && Stop(WordsOf(n), n.full, word[..j]);
    StopBelow(n, kid, word[..j]);
  }
}
