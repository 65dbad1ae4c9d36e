/**
 * `fillOut` of KeywordLookupGenerator.py: full prefixes, subtree weights and the order of siblings.
 * Weights are real numbers; the table of observed weights is a parameter.
 */
module KeywordWeights {
  import opened Options
  import opened KeywordTrie

  datatype Node = Node(full: Word, prefix: Word, value: Option<Token>, weight: real, kids: seq<Node>)

  function Observed(weights: map<Word, real>, word: Word): real {
    if word in weights then weights[word] else 0.0
  }

  function FillOut(t: Trie, prefix: Word, weights: map<Word, real>): Node
    decreases t, 1
  {
    var full := prefix + t.prefix;
    var kids := FillOutEach(t.kids, full, weights);
    Node(full, t.prefix, t.value, Observed(weights, full) + TotalWeight(kids), SortDescending(kids))
  }

  function FillOutEach(kids: seq<Trie>, prefix: Word, weights: map<Word, real>): (r: seq<Node>)
    ensures |r| == |kids|
    decreases kids, 0
  {
    if kids == [] then []
    else [FillOut(kids[0], prefix, weights)] + FillOutEach(kids[1..], prefix, weights)
  }

  function TotalWeight(nodes: seq<Node>): real {
    if nodes == [] then 0.0 else nodes[0].weight + TotalWeight(nodes[1..])
  }

  // ---------------------------------------------------------------- sorting siblings

  /** The sort by descending weight that keeps equally heavy siblings in their order. */
  function SortDescending(nodes: seq<Node>): seq<Node> {
    if nodes == [] then [] else Place(nodes[0], SortDescending(nodes[1..]))
  }

  function Place(n: Node, nodes: seq<Node>): seq<Node> {
    if nodes == [] || n.weight >= nodes[0].weight then [n] + nodes
    else [nodes[0]] + Place(n, nodes[1..])
  }

  ghost predicate Descending(nodes: seq<Node>) {
    forall i, j :: 0 <= i < j < |nodes| ==> nodes[i].weight >= nodes[j].weight
  }

  function OfWeight(nodes: seq<Node>, weight: real): seq<Node> {
    if nodes == [] then []
    else (if nodes[0].weight == weight then [nodes[0]] else []) + OfWeight(nodes[1..], weight)
  }

  lemma {:induction false} PlaceMembers(n: Node, nodes: seq<Node>)
    ensures multiset(Place(n, nodes)) == multiset{n} + multiset(nodes)
  {
    if nodes != [] && n.weight < nodes[0].weight {
      PlaceMembers(n, nodes[1..]);
      assert nodes == [nodes[0]] + nodes[1..];
    }
  }

  lemma {:induction false} PlaceDescending(n: Node, nodes: seq<Node>)
    requires Descending(nodes)
    ensures Descending(Place(n, nodes))
  {
    if nodes != [] && n.weight < nodes[0].weight {
      var rest := Place(n, nodes[1..]);
      PlaceDescending(n, nodes[1..]);
      PlaceMembers(n, nodes[1..]);
      forall x | x in rest
        ensures nodes[0].weight >= x.weight
      {
        assert x in multiset(rest);
      }
    }
  }

  lemma {:induction false} PlaceIsStable(n: Node, nodes: seq<Node>, weight: real)
    ensures OfWeight(Place(n, nodes), weight) == OfWeight([n] + nodes, weight)
  {
    assert ([n] + nodes)[1..] == nodes;
    if nodes != [] && n.weight < nodes[0].weight {
      PlaceIsStable(n, nodes[1..], weight);
      assert ([n] + nodes[1..])[1..] == nodes[1..];
    }
  }

  /** The sort is a stable, descending rearrangement. */
  lemma {:induction false} SortIsStable(nodes: seq<Node>, weight: real)
    ensures Descending(SortDescending(nodes)) && multiset(SortDescending(nodes)) == multiset(nodes)
    ensures OfWeight(SortDescending(nodes), weight) == OfWeight(nodes, weight)
  {
    if nodes != [] {
      var sorted := SortDescending(nodes[1..]);
      SortIsStable(nodes[1..], weight);
      PlaceMembers(nodes[0], sorted);
      PlaceDescending(nodes[0], sorted);
      PlaceIsStable(nodes[0], sorted, weight);
      assert nodes == [nodes[0]] + nodes[1..];
      assert ([nodes[0]] + sorted)[1..] == sorted;
    }
  }

  lemma SortMembers(nodes: seq<Node>)
    ensures |SortDescending(nodes)| == |nodes|
    ensures forall n :: n in SortDescending(nodes) <==> n in nodes
  {
    SortIsStable(nodes, 0.0);
    assert |multiset(SortDescending(nodes))| == |multiset(nodes)|;
    forall n
      ensures n in SortDescending(nodes) <==> n in nodes
    {
      assert n in multiset(SortDescending(nodes)) <==> n in multiset(nodes);
    }
  }

  // ---------------------------------------------------------------- meaning

  /** What the node holds for the whole word `s`. */
  function Holds(n: Node, s: Word): Option<Token>
    decreases n, 1
  {
    if n.full == s then n.value else HoldsIn(n.kids, s)
  }

  function HoldsFull(n: Node, s: Word): Option<Token>
    decreases n, 2
  {
    if n.full <= s then Holds(n, s) else None
  }

  function HoldsIn(nodes: seq<Node>, s: Word): Option<Token>
    decreases nodes, 0
  {
    if nodes == [] then None
    else
      var r := HoldsFull(nodes[0], s);
      if r.Some? then r else HoldsIn(nodes[1..], s)
  }

  /** Siblings below a prefix of length `depth` differ at that position. */
  ghost predicate Apart(nodes: seq<Node>, depth: nat) {
    && (forall n :: n in nodes ==> |n.full| > depth)
    && (forall a, b :: a in nodes && b in nodes && a.full[depth] == b.full[depth] ==> a == b)
  }

  ghost predicate NodeOk(n: Node) {
    && Apart(n.kids, |n.full|)
    && Descending(n.kids)
    && forall kid :: kid in n.kids ==>
        kid.prefix != [] && kid.full == n.full + kid.prefix && (kid.value.Some? || kid.kids != []) && NodeOk(kid)
  }

  lemma {:induction false} PlaceHolds(n: Node, nodes: seq<Node>, s: Word, depth: nat)
    requires Apart([n] + nodes, depth)
    ensures HoldsIn(Place(n, nodes), s) == HoldsIn([n] + nodes, s)
  {
    assert ([n] + nodes)[1..] == nodes;
    if nodes != [] && n.weight < nodes[0].weight {
      var head, rest := nodes[0], nodes[1..];
      assert ([n] + rest)[1..] == rest;
      assert forall x :: x in [n] + rest ==> x in [n] + nodes;
      PlaceHolds(n, rest, s, depth);
      assert n in [n] + nodes && head in [n] + nodes;
      assert n.full <= s && head.full <= s ==> n == head;
    }
  }

  /** The order of siblings does not change any lookup. */
  lemma {:induction false} SortHolds(nodes: seq<Node>, s: Word, depth: nat)
    requires Apart(nodes, depth)
    ensures HoldsIn(SortDescending(nodes), s) == HoldsIn(nodes, s)
  {
    if nodes != [] {
      var sorted := SortDescending(nodes[1..]);
      SortMembers(nodes[1..]);
      SortHolds(nodes[1..], s, depth);
      assert forall x :: x in [nodes[0]] + sorted ==> x in nodes;
      PlaceHolds(nodes[0], sorted, s, depth);
      assert ([nodes[0]] + sorted)[1..] == sorted;
    }
  }

  lemma {:induction false} FillOutEachApart(kids: seq<Trie>, prefix: Word, weights: map<Word, real>)
    requires Distinct(kids)
    ensures Apart(FillOutEach(kids, prefix, weights), |prefix|)
    ensures forall n :: n in FillOutEach(kids, prefix, weights) ==>
      n.prefix != [] && n.full == prefix + n.prefix
      && exists i :: 0 <= i < |kids| && kids[i].prefix == n.prefix
  {
    if kids != [] {
      FillOutEachApart(kids[1..], prefix, weights);
      var first, rest := FillOut(kids[0], prefix, weights), FillOutEach(kids[1..], prefix, weights);
      forall n | n in rest
        ensures n.full[|prefix|] != first.full[|prefix|] && exists i :: 0 <= i < |kids| && kids[i].prefix == n.prefix
      {
        var i :| 0 <= i < |kids[1..]| && kids[1..][i].prefix == n.prefix;
        assert kids[i + 1].prefix == n.prefix;
      }
      assert kids[0].prefix == first.prefix;
    }
  }

  /** `fillOut` of a coalesced trie: siblings apart and in descending order, full prefixes right. */
  lemma {:induction false} FillOutShape(t: Trie, prefix: Word, weights: map<Word, real>)
    requires WellFormed(t) && Live(t)
    ensures var n := FillOut(t, prefix, weights);
      NodeOk(n) && n.full == prefix + t.prefix && n.prefix == t.prefix && n.value == t.value && |n.kids| == |t.kids|
    decreases t, 1
  {
    var full := prefix + t.prefix;
    var kids := FillOutEach(t.kids, full, weights);
    FillOutEachApart(t.kids, full, weights);
    FillOutEachShape(t.kids, full, weights);
    SortMembers(kids);
    SortIsStable(kids, 0.0);
  }

  lemma {:induction false} FillOutEachShape(kids: seq<Trie>, prefix: Word, weights: map<Word, real>)
    requires forall kid :: kid in kids ==> WellFormed(kid) && Live(kid) && (kid.value.Some? || kid.kids != [])
    ensures forall n :: n in FillOutEach(kids, prefix, weights) ==> NodeOk(n) && (n.value.Some? || n.kids != [])
    decreases kids, 0
  {
    if kids != [] {
      FillOutShape(kids[0], prefix, weights);
      FillOutEachShape(kids[1..], prefix, weights);
    }
  }

  /** `fillOut` keeps every lookup. */
  lemma {:induction false} FillOutHolds(t: Trie, prefix: Word, weights: map<Word, real>, s: Word)
    requires WellFormed(t)
    ensures Holds(FillOut(t, prefix, weights), prefix + t.prefix + s) == Find(t, s)
    decreases t, 1
  {
    var full := prefix + t.prefix;
    if s != [] {
      FillOutEachApart(t.kids, full, weights);
      SortHolds(FillOutEach(t.kids, full, weights), full + s, |full|);
      FillOutEachHolds(t.kids, full, weights, s);
    }
  }

  lemma {:induction false} FillOutEachHolds(kids: seq<Trie>, prefix: Word, weights: map<Word, real>, s: Word)
    requires forall kid :: kid in kids ==> WellFormed(kid)
    ensures HoldsIn(FillOutEach(kids, prefix, weights), prefix + s) == FindIn(kids, s)
    decreases kids, 0
  {
    if kids != [] {
      var p := kids[0].prefix;
      FillOutEachHolds(kids[1..], prefix, weights, s);
      PrefixBehind(prefix, p, s);
      if p <= s {
        FillOutHolds(kids[0], prefix, weights, s[|p|..]);
        assert prefix + p + s[|p|..] == prefix + s;
      }
    }
  }

  // ---------------------------------------------------------------- weights

  /** The full prefixes of a node and everything below it. */
  function Fulls(n: Node): seq<Word>
    decreases n, 1
  {
    [n.full] + FullsIn(n.kids)
  }

  function FullsIn(nodes: seq<Node>): seq<Word>
    decreases nodes, 0
  {
    if nodes == [] then [] else Fulls(nodes[0]) + FullsIn(nodes[1..])
  }

  /** The words spelled by the paths of a trie. */
  function Paths(t: Trie, prefix: Word): seq<Word>
    decreases t, 1
  {
    [prefix + t.prefix] + PathsIn(t.kids, prefix + t.prefix)
  }

  function PathsIn(kids: seq<Trie>, prefix: Word): seq<Word>
    decreases kids, 0
  {
    if kids == [] then [] else Paths(kids[0], prefix) + PathsIn(kids[1..], prefix)
  }

  function SumObserved(words: seq<Word>, weights: map<Word, real>): real {
    if words == [] then 0.0 else Observed(weights, words[0]) + SumObserved(words[1..], weights)
  }

  /** Every node of the tree weighs what the words at and below it were observed to weigh. */
  ghost predicate Weighed(n: Node, weights: map<Word, real>) {
    n.weight == SumObserved(Fulls(n), weights) && forall kid :: kid in n.kids ==> Weighed(kid, weights)
  }

  lemma {:induction false} SumObservedAppend(a: seq<Word>, b: seq<Word>, weights: map<Word, real>)
    ensures SumObserved(a + b, weights) == SumObserved(a, weights) + SumObserved(b, weights)
  {
    if a == [] {
      assert a + b == b;
    } else {
      assert (a + b)[1..] == a[1..] + b;
      SumObservedAppend(a[1..], b, weights);
    }
  }

  lemma {:induction false} PlaceFulls(n: Node, nodes: seq<Node>, weights: map<Word, real>)
    ensures multiset(FullsIn(Place(n, nodes))) == multiset(Fulls(n)) + multiset(FullsIn(nodes))
    ensures SumObserved(FullsIn(Place(n, nodes)), weights)
         == SumObserved(Fulls(n), weights) + SumObserved(FullsIn(nodes), weights)
  {
    if nodes == [] || n.weight >= nodes[0].weight {
      assert ([n] + nodes)[1..] == nodes;
      SumObservedAppend(Fulls(n), FullsIn(nodes), weights);
    } else {
      PlaceFulls(n, nodes[1..], weights);
      assert Place(n, nodes)[1..] == Place(n, nodes[1..]);
      SumObservedAppend(Fulls(nodes[0]), FullsIn(nodes[1..]), weights);
      SumObservedAppend(Fulls(nodes[0]), FullsIn(Place(n, nodes[1..])), weights);
    }
  }

  lemma {:induction false} SortFulls(nodes: seq<Node>, weights: map<Word, real>)
    ensures multiset(FullsIn(SortDescending(nodes))) == multiset(FullsIn(nodes))
    ensures SumObserved(FullsIn(SortDescending(nodes)), weights) == SumObserved(FullsIn(nodes), weights)
  {
    if nodes != [] {
      SortFulls(nodes[1..], weights);
      PlaceFulls(nodes[0], SortDescending(nodes[1..]), weights);
      SumObservedAppend(Fulls(nodes[0]), FullsIn(nodes[1..]), weights);
    }
  }

  /** `fillOut` visits every node of the trie once, and every weight is the sum over its subtree. */
  lemma {:induction false} FillOutWeighs(t: Trie, prefix: Word, weights: map<Word, real>)
    ensures Weighed(FillOut(t, prefix, weights), weights)
    ensures multiset(Fulls(FillOut(t, prefix, weights))) == multiset(Paths(t, prefix))
    decreases t, 1
  {
    var full := prefix + t.prefix;
    var kids := FillOutEach(t.kids, full, weights);
    FillOutEachWeighs(t.kids, full, weights);
    SortFulls(kids, weights);
    SumObservedAppend([full], FullsIn(SortDescending(kids)), weights);
    SortMembers(kids);
  }

  lemma {:induction false} FillOutEachWeighs(kids: seq<Trie>, prefix: Word, weights: map<Word, real>)
    ensures var nodes := FillOutEach(kids, prefix, weights);
      && (forall n :: n in nodes ==> Weighed(n, weights))
      && TotalWeight(nodes) == SumObserved(FullsIn(nodes), weights)
      && multiset(FullsIn(nodes)) == multiset(PathsIn(kids, prefix))
    decreases kids, 0
  {
    if kids != [] {
      FillOutWeighs(kids[0], prefix, weights);
      FillOutEachWeighs(kids[1..], prefix, weights);
      var first, rest := FillOut(kids[0], prefix, weights), FillOutEach(kids[1..], prefix, weights);
      assert ([first] + rest)[1..] == rest;
      SumObservedAppend(Fulls(first), FullsIn(rest), weights);
    }
  }

  /** The weight of `n` nodes that weigh `x` each. */
  function Times(n: nat, x: real): real {
    if n == 0 then 0.0 else x + Times(n - 1, x)
  }

  lemma {:induction false} SumOfOne(words: seq<Word>, k: Word, x: real)
    ensures SumObserved(words, map[k := x]) == Times(multiset(words)[k], x)
  {
    if words != [] {
      var rest := words[1..];
      SumOfOne(rest, k, x);
      assert words == [words[0]] + rest;
      assert multiset(words)[k] == multiset(rest)[k] + if words[0] == k then 1 else 0;
    }
  }

  lemma {:induction false} SumSplits(words: seq<Word>, weights: map<Word, real>, k: Word)
    requires k in weights
    ensures SumObserved(words, weights) == SumObserved(words, map[k := weights[k]]) + SumObserved(words, weights - {k})
  {
    if words != [] {
      SumSplits(words[1..], weights, k);
    }
  }

  lemma {:induction false} SumOfNone(words: seq<Word>)
    ensures SumObserved(words, map[]) == 0.0
  {
    if words != [] {
      SumOfNone(words[1..]);
    }
  }

  lemma {:induction false} WeightIsSum(t: Trie, prefix: Word, weights: map<Word, real>)
    ensures FillOut(t, prefix, weights).weight == SumObserved(Paths(t, prefix), weights)
    decreases t, 1
  {
    var full := prefix + t.prefix;
    TotalIsSum(t.kids, full, weights);
    assert ([full] + PathsIn(t.kids, full))[1..] == PathsIn(t.kids, full);
  }

  lemma {:induction false} TotalIsSum(kids: seq<Trie>, prefix: Word, weights: map<Word, real>)
    ensures TotalWeight(FillOutEach(kids, prefix, weights)) == SumObserved(PathsIn(kids, prefix), weights)
    decreases kids, 0
  {
    if kids != [] {
      WeightIsSum(kids[0], prefix, weights);
      TotalIsSum(kids[1..], prefix, weights);
      SumObservedAppend(Paths(kids[0], prefix), PathsIn(kids[1..], prefix), weights);
      var first, rest := FillOut(kids[0], prefix, weights), FillOutEach(kids[1..], prefix, weights);
      assert ([first] + rest)[1..] == rest;
    }
  }

  // Weights come from the table alone. An empty table gives nothing, a table of one word gives a node that word's
  // weight for every node at or below it with that full prefix, and a larger table the sum of what its entries give.

  lemma WeightOfNone(t: Trie, prefix: Word)
    ensures FillOut(t, prefix, map[]).weight == 0.0
  {
    WeightIsSum(t, prefix, map[]);
    SumOfNone(Paths(t, prefix));
  }

  lemma WeightOfOne(t: Trie, prefix: Word, k: Word, x: real)
    ensures FillOut(t, prefix, map[k := x]).weight == Times(multiset(Paths(t, prefix))[k], x)
  {
    WeightIsSum(t, prefix, map[k := x]);
    SumOfOne(Paths(t, prefix), k, x);
  }

  lemma WeightSplits(t: Trie, prefix: Word, weights: map<Word, real>, k: Word)
    requires k in weights
    ensures FillOut(t, prefix, weights).weight
         == FillOut(t, prefix, map[k := weights[k]]).weight + FillOut(t, prefix, weights - {k}).weight
  {
    WeightIsSum(t, prefix, weights);
    WeightIsSum(t, prefix, map[k := weights[k]]);
    WeightIsSum(t, prefix, weights - {k});
    SumSplits(Paths(t, prefix), weights, k);
  }

  // ---------------------------------------------------------------- the best order of siblings

  function Sum(xs: seq<real>): real {
    if xs == [] then 0.0 else xs[0] + Sum(xs[1..])
  }

  /**
   * The weighted number of tests among siblings of the given weights: the first test is run for everything
   * that ends below any of them, the second for everything that is not below the first, and so on.
   */
  function RankCost(weights: seq<real>): real {
    if weights == [] then 0.0 else Sum(weights) + RankCost(weights[1..])
  }

  function WeightsOf(nodes: seq<Node>): seq<real> {
    seq(|nodes|, i requires 0 <= i < |nodes| => nodes[i].weight)
  }

  /** The weighted number of sibling tests in the whole tree. */
  function Tests(n: Node): real
    decreases n, 1
  {
    RankCost(WeightsOf(n.kids)) + Sum(TestsEach(n.kids))
  }

  function TestsEach(nodes: seq<Node>): (r: seq<real>)
    ensures |r| == |nodes|
    decreases nodes, 0
  {
    if nodes == [] then [] else [Tests(nodes[0])] + TestsEach(nodes[1..])
  }

  lemma {:induction false} TestsEachAt(nodes: seq<Node>, i: nat)
    requires i < |nodes|
    ensures TestsEach(nodes)[i] == Tests(nodes[i])
  {
    if i > 0 {
      TestsEachAt(nodes[1..], i - 1);
    }
  }

  /** `p` sends the positions of one sequence of `size` siblings one-to-one onto those of another. */
  ghost predicate Permutation(p: seq<nat>, size: nat) {
    && |p| == size
    && (forall i :: 0 <= i < size ==> p[i] < size)
    && (forall i, j :: 0 <= i < j < size ==> p[i] != p[j])
    && (forall k :: 0 <= k < size ==> k in p)
  }

  /** `b` is `a` with the siblings of every node put in some other order. */
  ghost predicate Reordered(a: Node, b: Node) {
    && a.full == b.full && a.prefix == b.prefix && a.value == b.value && a.weight == b.weight
    && |a.kids| == |b.kids|
    && exists p :: Permutation(p, |a.kids|) && forall i :: 0 <= i < |p| ==> Reordered(a.kids[i], b.kids[p[i]])
  }

  function Without(xs: seq<real>, j: nat): seq<real>
    requires j < |xs|
  {
    xs[..j] + xs[j + 1..]
  }

  /** Position `k` after position `j` has been taken out. */
  function Skip(k: nat, j: nat): nat {
    if k > j then k - 1 else k
  }

  lemma SkipRest(p: seq<nat>, j: nat) returns (q: seq<nat>)
    requires p != [] && Permutation(p, |p|) && j == p[0]
    ensures |q| == |p| - 1 && Permutation(q, |q|)
    ensures forall i :: 0 <= i < |q| ==> p[i + 1] != j && q[i] == Skip(p[i + 1], j)
  {
    q := seq(|p| - 1, i requires 0 <= i < |p| - 1 => Skip(p[i + 1], j));
    forall i | 0 <= i < |q|
      ensures p[i + 1] != j && q[i] == Skip(p[i + 1], j) < |q|
    {
      assert p[0] != p[i + 1];
    }
    forall i, k | 0 <= i < k < |q|
      ensures q[i] != q[k]
    {
      assert p[i + 1] != p[k + 1];
    }
    forall k | 0 <= k < |q|
      ensures k in q
    {
      SkipOnto(p, j, q, k);
    }
  }

  lemma SkipOnto(p: seq<nat>, j: nat, q: seq<nat>, k: nat)
    requires p != [] && j == p[0] && |q| == |p| - 1 && k < |q| && forall n :: 0 <= n < |p| ==> n in p
    requires forall i :: 0 <= i < |q| ==> q[i] == Skip(p[i + 1], j)
    ensures k in q
  {
    var k' := if k < j then k else k + 1;
    assert k' in p;
    var i :| 0 <= i < |p| && p[i] == k';
    assert q[i - 1] == k;
  }

  lemma {:induction false} SumWithout(xs: seq<real>, j: nat)
    requires j < |xs|
    ensures Sum(xs) == xs[j] + Sum(Without(xs, j))
  {
    if j == 0 {
      assert Without(xs, j) == xs[1..];
    } else {
      SumWithout(xs[1..], j - 1);
      assert Without(xs, j)[1..] == Without(xs[1..], j - 1);
    }
  }

  lemma {:induction false} SumSmaller(xs: seq<real>, ys: seq<real>, p: seq<nat>)
    requires |xs| == |ys| && Permutation(p, |xs|)
    requires forall i :: 0 <= i < |xs| ==> xs[i] <= ys[p[i]]
    ensures Sum(xs) <= Sum(ys)
  {
    if xs != [] {
      var j := p[0];
      var q := SkipRest(p, j);
      forall i | 0 <= i < |q|
        ensures xs[1..][i] <= Without(ys, j)[q[i]]
      {
        assert xs[i + 1] <= ys[p[i + 1]];
      }
      SumSmaller(xs[1..], Without(ys, j), q);
      SumWithout(ys, j);
    }
  }

  /** Moving a heaviest sibling to the front never costs tests. */
  lemma {:induction false} MoveToFront(ys: seq<real>, j: nat)
    requires j < |ys| && forall k :: 0 <= k < |ys| ==> ys[k] <= ys[j]
    ensures RankCost([ys[j]] + Without(ys, j)) <= RankCost(ys)
  {
    var front := [ys[j]] + Without(ys, j);
    if j == 0 {
      assert front == ys;
    } else {
      var rest := Without(ys[1..], j - 1);
      MoveToFront(ys[1..], j - 1);
      assert Without(ys, j) == [ys[0]] + rest && front[1..] == Without(ys, j) && Without(ys, j)[1..] == rest;
      assert ([ys[j]] + rest)[1..] == rest;
      SumWithout(ys[1..], j - 1);
      SumWithout(ys, j);
    }
  }

  /** The rearrangement inequality: descending weights need the fewest tests. */
  lemma {:induction false} DescendingIsCheapest(xs: seq<real>, ys: seq<real>, p: seq<nat>)
    requires forall i, j :: 0 <= i < j < |xs| ==> xs[i] >= xs[j]
    requires |xs| == |ys| && Permutation(p, |xs|)
    requires forall i :: 0 <= i < |xs| ==> xs[i] == ys[p[i]]
    ensures RankCost(xs) <= RankCost(ys) && Sum(xs) == Sum(ys)
  {
    if xs != [] {
      var j := p[0];
      var rest := Without(ys, j);
      var q := SkipRest(p, j);
      forall i | 0 <= i < |q|
        ensures xs[1..][i] == rest[q[i]]
      {
        assert xs[i + 1] == ys[p[i + 1]];
      }
      DescendingIsCheapest(xs[1..], rest, q);
      SumWithout(ys, j);
      forall k | 0 <= k < |ys|
        ensures ys[k] <= ys[j]
      {
        assert k in p;
      }
      MoveToFront(ys, j);
      assert ([ys[j]] + rest)[1..] == rest;
    }
  }

  ghost predicate SortedBelow(n: Node) {
    Descending(n.kids) && forall kid :: kid in n.kids ==> SortedBelow(kid)
  }

  lemma {:induction false} FillOutSorts(t: Trie, prefix: Word, weights: map<Word, real>)
    ensures SortedBelow(FillOut(t, prefix, weights))
    decreases t, 1
  {
    var kids := FillOutEach(t.kids, prefix + t.prefix, weights);
    FillOutEachSorts(t.kids, prefix + t.prefix, weights);
    SortIsStable(kids, 0.0);
    SortMembers(kids);
  }

  lemma {:induction false} FillOutEachSorts(kids: seq<Trie>, prefix: Word, weights: map<Word, real>)
    ensures forall n :: n in FillOutEach(kids, prefix, weights) ==> SortedBelow(n)
    decreases kids, 0
  {
    if kids != [] {
      FillOutSorts(kids[0], prefix, weights);
      FillOutEachSorts(kids[1..], prefix, weights);
    }
  }

  /** `p` matches the children of one node with reordered children of the other. */
  ghost predicate Matched(a: seq<Node>, b: seq<Node>, p: seq<nat>) {
    |a| == |b| && Permutation(p, |a|) && forall i :: 0 <= i < |p| ==> Reordered(a[i], b[p[i]])
  }

  lemma SiblingsMatch(a: Node, b: Node) returns (p: seq<nat>)
    requires Reordered(a, b)
    ensures Matched(a.kids, b.kids, p)
  {
    p :| Permutation(p, |a.kids|) && forall i :: 0 <= i < |p| ==> Reordered(a.kids[i], b.kids[p[i]]);
  }

  lemma SiblingsCheapest(a: seq<Node>, b: seq<Node>, p: seq<nat>)
    requires Matched(a, b, p) && Descending(a)
    ensures RankCost(WeightsOf(a)) <= RankCost(WeightsOf(b))
  {
    DescendingIsCheapest(WeightsOf(a), WeightsOf(b), p);
  }

  /** No other order of siblings, anywhere in the tree, needs fewer weighted tests. */
  lemma {:induction false} SortedIsCheapest(a: Node, b: Node)
    requires SortedBelow(a) && Reordered(a, b)
    ensures Tests(a) <= Tests(b)
    decreases a, 1
  {
    var p := SiblingsMatch(a, b);
    SiblingsCheapest(a.kids, b.kids, p);
    EachIsCheapest(a.kids, b.kids, p);
  }

  lemma {:induction false} EachIsCheapest(a: seq<Node>, b: seq<Node>, p: seq<nat>)
    requires Matched(a, b, p) && forall kid :: kid in a ==> SortedBelow(kid)
    ensures Sum(TestsEach(a)) <= Sum(TestsEach(b))
    decreases a, 0
  {
    forall i | 0 <= i < |a|
      ensures TestsEach(a)[i] <= TestsEach(b)[p[i]]
    {
      SortedIsCheapest(a[i], b[p[i]]);
      TestsEachAt(a, i);
      TestsEachAt(b, p[i]);
    }
    SumSmaller(TestsEach(a), TestsEach(b), p);
  }

  lemma FillOutIsCheapest(t: Trie, prefix: Word, weights: map<Word, real>, other: Node)
    requires Reordered(FillOut(t, prefix, weights), other)
    ensures Tests(FillOut(t, prefix, weights)) <= Tests(other)
  {
    FillOutSorts(t, prefix, weights);
    SortedIsCheapest(FillOut(t, prefix, weights), other);
  }
}
