/**
 * The `Trie` objects of KeywordLookupGenerator.py, whose `insert` and `coalesce` change them in place.
 */
module TrieObjects {
  import opened Options
  import opened KeywordTrie

  /** The objects below any of the nodes. */
  ghost function Below(nodes: seq<TrieNode>): set<TrieNode>
    reads nodes
  {
    set n, x | n in nodes && x in n.Repr :: x
  }

  ghost predicate Forest(nodes: seq<TrieNode>)
    reads nodes, Below(nodes)
  {
    && (forall i :: 0 <= i < |nodes| ==> nodes[i].Valid())
    && (forall i, j :: 0 <= i < j < |nodes| ==> nodes[i].Repr !! nodes[j].Repr)
  }

  ghost function Views(nodes: seq<TrieNode>): seq<Trie>
    reads nodes
  {
    seq(|nodes|, i requires 0 <= i < |nodes| reads nodes => nodes[i].View)
  }

  lemma {:induction false} PutAllAppend(done: seq<Trie>, tries: seq<Trie>, t: Trie)
    ensures PutAll(done, tries + [t]) == Put(PutAll(done, tries), t)
    decreases tries
  {
    if tries == [] {
      assert tries + [t] == [t] && [t][1..] == [];
    } else {
      assert (tries + [t])[1..] == tries[1..] + [t];
      PutAllAppend(Put(done, tries[0]), tries[1..], t);
    }
  }

  lemma {:induction false} CoalesceEachAppend(kids: seq<Trie>, t: Trie)
    ensures CoalesceEach(kids + [t]) == CoalesceEach(kids) + [Coalesce(t)]
  {
    if kids == [] {
      assert kids + [t] == [t] && [t][1..] == [];
    } else {
      assert (kids + [t])[1..] == kids[1..] + [t];
      CoalesceEachAppend(kids[1..], t);
    }
  }

  /** The dictionary after the first `k` children. */
  function Filed(kids: seq<Trie>, k: nat): seq<Trie>
    requires k <= |kids|
  {
    PutAll([], CoalesceEach(kids[..k]))
  }

  lemma FiledStep(kids: seq<Trie>, k: nat)
    requires k < |kids|
    ensures Filed(kids, k + 1) == Put(Filed(kids, k), Coalesce(kids[k]))
  {
    assert kids[..k + 1] == kids[..k] + [kids[k]];
    CoalesceEachAppend(kids[..k], kids[k]);
    PutAllAppend([], CoalesceEach(kids[..k]), Coalesce(kids[k]));
  }

  /** The dictionary write `keys[t.prefix] = t`. */
  method File(nodes: seq<TrieNode>, t: TrieNode) returns (r: seq<TrieNode>)
    requires Forest(nodes) && t.Valid() && t.Repr !! Below(nodes)
    ensures Forest(r) && Below(r) <= Below(nodes) + t.Repr && Views(r) == Put(Views(nodes), t.View)
  {
    var i := 0;
    while i < |nodes| && nodes[i].prefix != t.prefix
      invariant i <= |nodes| && forall j :: 0 <= j < i ==> Views(nodes)[j].prefix != t.prefix
    {
      i := i + 1;
    }
    IndexIs(Views(nodes), t.prefix, i);
    if i < |nodes| {
      r := nodes[i := t];
      ForestUpdate(nodes, i, t);
    } else {
      r := nodes + [t];
      ForestAppend(nodes, t);
    }
  }

  /** A forest none of whose objects has changed is still the same. */
  twostate lemma ForestKeeps(nodes: seq<TrieNode>)
    requires old(Forest(nodes)) && unchanged(old(Below(nodes)))
    ensures Forest(nodes) && Below(nodes) == old(Below(nodes)) && Views(nodes) == old(Views(nodes))
  {
    forall i | 0 <= i < |nodes|
      ensures nodes[i].Valid() && nodes[i].View == old(nodes[i].View) && nodes[i].Repr == old(nodes[i].Repr)
    {
      assert old(nodes[i] in nodes[i].Repr && nodes[i].Repr <= Below(nodes));
    }
  }

  lemma ForestUpdate(nodes: seq<TrieNode>, i: nat, t: TrieNode)
    requires Forest(nodes) && t.Valid() && t.Repr !! Below(nodes) && i < |nodes|
    ensures var r := nodes[i := t];
      Forest(r) && Below(r) <= Below(nodes) + t.Repr && Views(r) == Views(nodes)[i := t.View]
  {
    var r := nodes[i := t];
    forall j | 0 <= j < |r|
      ensures r[j].Valid() && (j != i ==> r[j] == nodes[j] && r[j].Repr <= Below(nodes))
    {
      assert r[j] == if j == i then t else nodes[j];
    }
    forall j, k | 0 <= j < k < |r|
      ensures r[j].Repr !! r[k].Repr
    {
      assert j == i || k == i || nodes[j].Repr !! nodes[k].Repr;
    }
    forall n | n in r
      ensures n in nodes || n == t
    {
    }
  }

  lemma ForestAppend(nodes: seq<TrieNode>, t: TrieNode)
    requires Forest(nodes) && t.Valid() && t.Repr !! Below(nodes)
    ensures var r := nodes + [t];
      Forest(r) && Below(r) <= Below(nodes) + t.Repr && Views(r) == Views(nodes) + [t.View]
  {
    var r := nodes + [t];
    assert r[|nodes|] == t;
    forall i, j | 0 <= i < j < |r|
      ensures r[i].Repr !! r[j].Repr
    {
      assert r[i] == nodes[i] && nodes[i].Repr <= Below(nodes);
    }
    forall i | 0 <= i < |r|
      ensures r[i].Valid()
    {
      assert r[i] == t || r[i] == nodes[i];
    }
    assert forall n :: n in r ==> n in nodes || n == t;
  }

  class TrieNode {
    const prefix: Word
    var keys: seq<TrieNode>  // the dictionary, in insertion order; each child is filed under its prefix
    var value: Option<Token>

    /** The objects of the tree below this node, and the trie they make up. */
    ghost var Repr: set<TrieNode>
    ghost var View: Trie

    ghost predicate Valid()
      reads this, Repr
      decreases Repr
    {
      && this in Repr
      && View.prefix == prefix && View.value == value && |View.kids| == |keys|
      && (forall i :: 0 <= i < |keys| ==>
            && keys[i] in Repr && keys[i].Repr < Repr && this !in keys[i].Repr
            && keys[i].Valid() && keys[i].View == View.kids[i])
      && (forall i, j :: 0 <= i < j < |keys| ==> keys[i].Repr !! keys[j].Repr)
    }

    constructor (prefix: Word)
      ensures Valid() && fresh(Repr) && View == Trie(prefix, None, []) && this.prefix == prefix
    {
      this.prefix := prefix;
      keys, value := [], None;
      View, Repr := Trie(prefix, None, []), {this};
    }

    /** The dictionary lookup: the position of the child filed under a prefix. */
    method Lookup(p: Word) returns (i: nat)
      requires Valid()
      ensures i == IndexOf(View.kids, p) <= |keys|
    {
      i := 0;
      while i < |keys| && keys[i].prefix != p
        invariant i <= |keys| && forall j :: 0 <= j < i ==> View.kids[j].prefix != p
      {
        i := i + 1;
      }
      IndexIs(View.kids, p, i);
    }

    method Insert(key: Word, v: Token)
      requires Valid()
      modifies Repr
      ensures Valid() && fresh(Repr - old(Repr)) && View == KeywordTrie.Insert(old(View), key, v)
      decreases key
    {
      if key == [] {
        value := Some(v);
        View := View.(value := Some(v));
        return;
      }
      var i := Lookup([key[0]]);
      if i == |keys| {
        AddChild([key[0]]);
      }
      InsertBelow(i, key, v);
    }

    method AddChild(p: Word)
      requires Valid()
      modifies this
      ensures Valid() && fresh(Repr - old(Repr))
      ensures |keys| == |old(keys)| + 1 && keys[..|old(keys)|] == old(keys)
      ensures View == old(View).(kids := old(View).kids + [Trie(p, None, [])])
    {
      var child := new TrieNode(p);
      keys := keys + [child];
      Repr := Repr + child.Repr;
      View := View.(kids := View.kids + [child.View]);
    }

    method InsertBelow(i: nat, key: Word, v: Token)
      requires Valid() && i < |keys| && key != []
      modifies Repr
      ensures Valid() && fresh(Repr - old(Repr))
      ensures View == old(View).(kids := old(View).kids[i := KeywordTrie.Insert(old(View).kids[i], key[1..], v)])
      decreases key, 0
    {
      var child := keys[i];
      child.Insert(key[1..], v);
      Repr := Repr + child.Repr;
      View := View.(kids := View.kids[i := child.View]);
    }

    /** The loop of `coalesce`: the dictionary it builds. */
    method CoalesceEachChild() returns (done: seq<TrieNode>)
      requires Valid()
      modifies Repr - {this}
      ensures Forest(done) && this !in Below(done) && fresh(Below(done) - Repr)
      ensures Views(done) == PutAll([], CoalesceEach(View.kids))
      decreases Repr, 0
    {
      done := [];
      for k := 0 to |keys|
        invariant Untouched(k)
        invariant Forest(done) && Apart(done, k) && fresh(Below(done) - Repr)
        invariant Views(done) == Filed(View.kids, k)
      {
        FiledStep(View.kids, k);
        done := CoalesceOne(k, done);
      }
      assert View.kids[..|keys|] == View.kids;
    }

    /** One turn of the loop. */
    method CoalesceOne(k: nat, done: seq<TrieNode>) returns (next: seq<TrieNode>)
      requires k < |keys| && this in Repr && Untouched(k) && Forest(done) && Apart(done, k)
      modifies keys[k].Repr
      ensures Untouched(k + 1) && Forest(next) && Apart(next, k + 1)
      ensures fresh(Below(next) - old(Below(done)) - old(Repr))
      ensures Views(next) == Put(old(Views(done)), KeywordTrie.Coalesce(View.kids[k]))
      decreases keys[k].Repr, 2
    {
      var t := keys[k].Coalesce();
      ForestKeeps(done);
      UntouchedKeeps(k);
      next := File(done, t);
    }

    /** Changes below child `k` leave the later children alone. */
    twostate lemma UntouchedKeeps(k: nat)
      requires old(this in Repr && k < |keys| && Untouched(k))
      requires unchanged(this)
      requires forall j :: k < j < |keys| ==> unchanged(old(keys[j].Repr))
      ensures Untouched(k + 1)
      ensures forall j :: k < j < |keys| ==> keys[j].Repr == old(keys[j].Repr)
    {
      forall j | k < j < |keys|
        ensures keys[j].Valid() && keys[j].View == old(keys[j].View) && keys[j].Repr == old(keys[j].Repr)
      {
        assert old(keys[j] in keys[j].Repr);
      }
    }

    /** The new dictionary replaces the old one. */
    method Install(done: seq<TrieNode>, ghost kids: seq<Trie>, ghost below: set<TrieNode>)
      requires Forest(done) && View.prefix == prefix && View.value == value
      requires below == Below(done) && this !in below && kids == Views(done)
      modifies this
      ensures Valid() && Repr == {this} + below && value == old(value) && View == old(View).(kids := kids)
    {
      assert forall i :: 0 <= i < |done| ==>
        done[i] in done[i].Repr && done[i].Repr <= below && done[i].View == kids[i];
      keys, Repr, View := done, {this} + below, View.(kids := kids);
      forall i | 0 <= i < |done|
        ensures done[i].Valid() && done[i].View == kids[i] && done[i].Repr == old(done[i].Repr)
      {
        OthersKeep(done[i]);
      }
    }

    /** A change of this object's fields leaves a tree alone that it is no part of. */
    twostate lemma OthersKeep(n: TrieNode)
      requires old(n.Valid()) && this !in old(n.Repr)
      requires forall o: TrieNode {:trigger o.View} :: old(allocated(o)) && o != this ==> unchanged(o)
      ensures n.Valid() && n.View == old(n.View) && n.Repr == old(n.Repr)
    {
      assert n.View == n.View && unchanged(n);
      assert forall o :: o in n.Repr ==> o.View == o.View && unchanged(o);
    }

    /** The children from number `k` on are as they were. */
    ghost predicate Untouched(k: nat)
      reads this, keys, Below(keys)
    {
      && |View.kids| == |keys|
      && (forall j :: k <= j < |keys| ==>
            && keys[j] in Repr && keys[j].Repr < Repr && this !in keys[j].Repr
            && keys[j].Valid() && keys[j].View == View.kids[j])
      && (forall i, j :: k <= i < j < |keys| ==> keys[i].Repr !! keys[j].Repr)
    }

    /** The nodes share no object with this one or its children from number `k` on. */
    ghost predicate Apart(nodes: seq<TrieNode>, k: nat)
      reads this, keys, nodes
    {
      this !in Below(nodes) && forall j :: k <= j < |keys| ==> Below(nodes) !! keys[j].Repr
    }

    /**
     * `coalesce`: the children are coalesced in place and filed again under their merged prefixes. The result
     * is this node, or a new one in its place that takes over the children of an only child.
     */
    method Coalesce() returns (r: TrieNode)
      requires Valid()
      modifies Repr
      ensures Valid() && fresh(Repr - old(Repr)) && View == CoalesceRoot(old(View))
      ensures r.Valid() && fresh(r.Repr - old(Repr)) && r.View == KeywordTrie.Coalesce(old(View))
      decreases Repr, 1
    {
      var done := CoalesceEachChild();
      Install(done, Views(done), Below(done));
      if value.Some? || |keys| != 1 {
        return this;
      }
      r := new TrieNode.Adopt(prefix + keys[0].prefix, keys[0]);
    }

    /** A node that shares the children of another. */
    constructor Adopt(p: Word, child: TrieNode)
      requires child.Valid()
      ensures Valid() && Repr == {this} + (child.Repr - {child})
      ensures View == Trie(p, child.View.value, child.View.kids)
    {
      prefix := p;
      keys, value := child.keys, child.value;
      View := Trie(p, child.View.value, child.View.kids);
      Repr := {this} + (child.Repr - {child});
      new;
    }
  }
}
