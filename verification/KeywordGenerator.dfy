/**
 * The driver of KeywordLookupGenerator.py: keywords go into a trie of objects, which is coalesced in place,
 * weighed and printed.
 */
module KeywordGenerator {
  import opened Options
  import opened KeywordTrie
  import opened KeywordWeights
  import opened KeywordCode
  import opened KeywordLookup
  import opened TrieObjects

  /** The tree of objects as a value. */
  method Freeze(node: TrieNode) returns (t: Trie)
    requires node.Valid()
    ensures t == node.View
    decreases node.Repr
  {
    var kids: seq<Trie> := [];
    for i := 0 to |node.keys|
      invariant kids == node.View.kids[..i]
    {
      var kid := Freeze(node.keys[i]);
      kids := kids + [kid];
    }
    t := Trie(node.prefix, node.value, kids);
  }

  lemma {:induction false} FillOutEachAppend(kids: seq<Trie>, t: Trie, prefix: Word, weights: map<Word, real>)
    ensures FillOutEach(kids + [t], prefix, weights)
         == FillOutEach(kids, prefix, weights) + [FillOut(t, prefix, weights)]
  {
    if kids == [] {
      assert kids + [t] == [t] && [t][1..] == [];
    } else {
      assert (kids + [t])[1..] == kids[1..] + [t];
      FillOutEachAppend(kids[1..], t, prefix, weights);
    }
  }

  lemma {:induction false} TotalWeightAppend(nodes: seq<Node>, n: Node)
    ensures TotalWeight(nodes + [n]) == TotalWeight(nodes) + n.weight
  {
    if nodes == [] {
      assert nodes + [n] == [n] && [n][1..] == [];
    } else {
      assert (nodes + [n])[1..] == nodes[1..] + [n];
      TotalWeightAppend(nodes[1..], n);
    }
  }

  /** `fillOut`. */
  method FillOutTrie(t: Trie, prefix: Word, weights: map<Word, real>) returns (n: Node)
    ensures n == FillOut(t, prefix, weights)
    decreases t
  {
    var fullPrefix := prefix + t.prefix;
    var weight := if fullPrefix in weights then weights[fullPrefix] else 0.0;
    ghost var own := weight;
    var kids: seq<Node> := [];
    for i := 0 to |t.kids|
      invariant kids == FillOutEach(t.kids[..i], fullPrefix, weights) && weight == own + TotalWeight(kids)
    {
      var kid := FillOutTrie(t.kids[i], fullPrefix, weights);
      assert t.kids[..i + 1] == t.kids[..i] + [t.kids[i]];
      FillOutEachAppend(t.kids[..i], t.kids[i], fullPrefix, weights);
      TotalWeightAppend(kids, kid);
      kids := kids + [kid];
      weight := weight + kid.weight;
    }
    assert t.kids[..|t.kids|] == t.kids;
    n := Node(fullPrefix, t.prefix, t.value, weight, SortDescending(kids));
  }

  lemma {:induction false} MaxLengthInAppend(nodes: seq<Node>, n: Node)
    ensures MaxLengthIn(nodes + [n]) == Max(MaxLengthIn(nodes), MaxLength(n))
  {
    if nodes == [] {
      assert nodes + [n] == [n] && [n][1..] == [];
    } else {
      assert (nodes + [n])[1..] == nodes[1..] + [n];
      MaxLengthInAppend(nodes[1..], n);
    }
  }

  /** `maxLength`. */
  method MaxLengthOf(n: Node) returns (max: nat)
    ensures max == MaxLength(n)
    decreases n
  {
    max := |n.full|;
    for i := 0 to |n.kids|
      invariant max == Max(|n.full|, MaxLengthIn(n.kids[..i]))
    {
      var l := MaxLengthOf(n.kids[i]);
      assert n.kids[..i + 1] == n.kids[..i] + [n.kids[i]];
      MaxLengthInAppend(n.kids[..i], n.kids[i]);
      if l > max {
        max := l;
      }
    }
    assert n.kids[..|n.kids|] == n.kids;
  }

  lemma {:induction false} EmitArmsAppend(kids: seq<Node>, n: Node, rootIndex: nat)
    ensures EmitArms(kids + [n], rootIndex) == EmitArms(kids, rootIndex) + [EmitArm(n, rootIndex)]
  {
    if kids == [] {
      assert kids + [n] == [n] && [n][1..] == [];
    } else {
      assert (kids + [n])[1..] == kids[1..] + [n];
      EmitArmsAppend(kids[1..], n, rootIndex);
    }
  }

  lemma EmitArmsUpTo(kids: seq<Node>, i: nat, rootIndex: nat)
    requires i < |kids|
    ensures EmitArms(kids[..i + 1], rootIndex) == EmitArms(kids[..i], rootIndex) + [EmitArm(kids[i], rootIndex)]
  {
    assert kids[..i + 1] == kids[..i] + [kids[i]];
    EmitArmsAppend(kids[..i], kids[i], rootIndex);
  }

  /** `printSubTreeAsC`: a full prefix reaches at least to its parent's, as `fillOut` makes it. */
  method PrintSubTree(n: Node) returns (b: Block)
    requires NodeOk(n)
    ensures b == Emit(n)
    decreases n, 0
  {
    var check := if n.value.Some? then Some(Check(|n.full|, n.full, n.value.value)) else None;
    var rootIndex := |n.full|;
    var arms: seq<Arm> := [];
    for i := 0 to |n.kids|
      invariant arms == EmitArms(n.kids[..i], rootIndex)
    {
      var kid := n.kids[i];
      assert kid in n.kids;
      var arm := PrintArm(kid, rootIndex);
      EmitArmsUpTo(n.kids, i, rootIndex);
      arms := arms + [arm];
    }
    assert n.kids[..|n.kids|] == n.kids;
    b := Block(check, arms);
  }

  /** One turn of the loop of `printSubTreeAsC`. */
  method PrintArm(kid: Node, rootIndex: nat) returns (arm: Arm)
    requires NodeOk(kid) && rootIndex < |kid.full|
    ensures arm == EmitArm(kid, rootIndex)
    decreases kid, 1
  {
    var k, baseIndex := kid.prefix, rootIndex;
    if baseIndex > 0 && |k| == 3 {
      baseIndex := baseIndex - 1;
      k := [kid.full[baseIndex]] + k;
    }
    var body := PrintSubTree(kid);
    arm := Arm(baseIndex, k, body);
  }

  /** The generator: the printed decision tree and the constant that is printed with it. */
  method Generate(keywords: seq<(Word, Token)>, weights: map<Word, real>) returns (program: Block, maxTokenLength: nat)
    ensures program == Emit(Generated(keywords, weights))
    ensures maxTokenLength == MaxTokenLength(keywords, weights)
  {
    var trie := new TrieNode([]);
    for i := 0 to |keywords|
      invariant trie.Valid() && fresh(trie.Repr) && trie.View == Build(keywords[..i])
    {
      assert keywords[..i + 1][..i] == keywords[..i];
      trie.Insert(keywords[i].0, keywords[i].1);
    }
    assert keywords[..|keywords|] == keywords;
    var ignored := trie.Coalesce();
    var t := Freeze(trie);
    var n := FillOutTrie(t, [], weights);
    GeneratedShape(keywords, weights);
    program := PrintSubTree(n);
    var max := MaxLengthOf(n);
    maxTokenLength := max + 1;
  }
}
