/**
 * The keyword trie of KeywordLookupGenerator.py: `insert` and `coalesce`.
 *
 * A trie's children are a dictionary that remembers insertion order. Every child is filed under its own
 * prefix, so the dictionary is a sequence of tries and a dictionary write is `Put`.
 */
module KeywordTrie {
  import opened Options

  /** A 16-bit code unit. */
  type Unit = u: int | 0 <= u < 0x10000

  type Word = seq<Unit>
  type Token = string

  datatype Trie = Trie(prefix: Word, value: Option<Token>, kids: seq<Trie>)

  const EMPTY := Trie([], None, [])

  // ---------------------------------------------------------------- insertion

  /** The position of the child filed under `prefix`, or the number of children. */
  function IndexOf(kids: seq<Trie>, prefix: Word): (i: nat)
    ensures i <= |kids|
    ensures i < |kids| ==> kids[i].prefix == prefix
    ensures forall j :: 0 <= j < i ==> kids[j].prefix != prefix
  {
    if kids == [] then 0
    else if kids[0].prefix == prefix then 0
    else 1 + IndexOf(kids[1..], prefix)
  }

  /** The dictionary write `keys[t.prefix] = t`. */
  function Put(kids: seq<Trie>, t: Trie): seq<Trie> {
    var i := IndexOf(kids, t.prefix);
    if i < |kids| then kids[i := t] else kids + [t]
  }

  /** The child that `insert` descends into, made if it is missing. */
  function KidFor(t: Trie, key: Word): Trie
    requires key != []
  {
    var i := IndexOf(t.kids, [key[0]]);
    if i < |t.kids| then t.kids[i] else Trie([key[0]], None, [])
  }

  function Insert(t: Trie, key: Word, value: Token): (r: Trie)
    ensures r.prefix == t.prefix
    decreases key
  {
    if key == [] then
      t.(value := Some(value))
    else
      t.(kids := Put(t.kids, Insert(KidFor(t, key), key[1..], value)))
  }

  /** The keyword list as a dictionary: a later binding of a key replaces an earlier one. */
  function Table(keywords: seq<(Word, Token)>): map<Word, Token> {
    if keywords == [] then map[]
    else
      var last := |keywords| - 1;
      Table(keywords[..last])[keywords[last].0 := keywords[last].1]
  }

  function Build(keywords: seq<(Word, Token)>): Trie {
    if keywords == [] then EMPTY
    else
      var last := |keywords| - 1;
      Insert(Build(keywords[..last]), keywords[last].0, keywords[last].1)
  }

  // ---------------------------------------------------------------- meaning

  /** What the trie holds for the word that continues its prefix with `s`. */
  function Find(t: Trie, s: Word): Option<Token>
    decreases t, 1
  {
    if s == [] then t.value else FindIn(t.kids, s)
  }

  /** What the trie holds for `s`, prefix included. */
  function FindFull(t: Trie, s: Word): Option<Token>
    decreases t, 2
  {
    if t.prefix <= s then Find(t, s[|t.prefix|..]) else None
  }

  function FindIn(kids: seq<Trie>, s: Word): Option<Token>
    decreases kids, 0
  {
    if kids == [] then None
    else
      var r := FindFull(kids[0], s);
      if r.Some? then r else FindIn(kids[1..], s)
  }

  /** Siblings have non-empty prefixes with pairwise different first units. */
  ghost predicate Distinct(kids: seq<Trie>) {
    && (forall i :: 0 <= i < |kids| ==> kids[i].prefix != [])
    && (forall i, j :: 0 <= i < j < |kids| ==> kids[i].prefix[0] != kids[j].prefix[0])
  }

  ghost predicate WellFormed(t: Trie) {
    Distinct(t.kids) && forall kid :: kid in t.kids ==> WellFormed(kid)
  }

  /** Every child's prefix is one unit long, as `insert` makes it. */
  ghost predicate Raw(t: Trie) {
    forall kid :: kid in t.kids ==> |kid.prefix| == 1 && Raw(kid)
  }

  /** No descendant is a leaf without a value. */
  ghost predicate Live(t: Trie) {
    forall kid :: kid in t.kids ==> (kid.value.Some? || kid.kids != []) && Live(kid)
  }

  /** Every descendant has a value or at least two children. */
  ghost predicate Compact(t: Trie) {
    forall kid :: kid in t.kids ==> (kid.value.Some? || |kid.kids| >= 2) && Compact(kid)
  }

  /** The number of nodes below the root, and the number of values in the whole trie. */
  function NodesBelow(kids: seq<Trie>): nat
    decreases kids
  {
    if kids == [] then 0 else 1 + NodesBelow(kids[0].kids) + NodesBelow(kids[1..])
  }

  function Values(t: Trie): nat
    decreases t, 1
  {
    (if t.value.Some? then 1 else 0) + ValuesBelow(t.kids)
  }

  function ValuesBelow(kids: seq<Trie>): nat
    decreases kids, 0
  {
    if kids == [] then 0 else Values(kids[0]) + ValuesBelow(kids[1..])
  }

  // ---------------------------------------------------------------- looking among siblings

  /** Siblings with different first units: only the child that starts like `s` can answer. */
  lemma {:induction false} FindInAt(kids: seq<Trie>, s: Word, i: nat)
    requires Distinct(kids) && i < |kids|
    requires s != [] && kids[i].prefix[0] == s[0]
    ensures FindIn(kids, s) == FindFull(kids[i], s)
  {
    if i == 0 {
      if FindFull(kids[0], s).None? {
        FindInNone(kids[1..], s);
      }
    } else {
      FindInAt(kids[1..], s, i - 1);
    }
  }

  lemma {:induction false} FindInNone(kids: seq<Trie>, s: Word)
    requires forall i :: 0 <= i < |kids| ==> kids[i].prefix != [] && (s == [] || kids[i].prefix[0] != s[0])
    ensures FindIn(kids, s).None?
  {
    if kids != [] {
      FindInNone(kids[1..], s);
    }
  }

  lemma {:induction false} ValuesBelowUpdate(kids: seq<Trie>, i: nat, t: Trie)
    requires i < |kids|
    ensures ValuesBelow(kids[i := t]) == ValuesBelow(kids) - Values(kids[i]) + Values(t)
  {
    if i > 0 {
      assert kids[i := t][1..] == kids[1..][i - 1 := t];
      ValuesBelowUpdate(kids[1..], i - 1, t);
    } else {
      assert kids[i := t][1..] == kids[1..];
    }
  }

  lemma {:induction false} ValuesBelowAppend(kids: seq<Trie>, t: Trie)
    ensures ValuesBelow(kids + [t]) == ValuesBelow(kids) + Values(t)
  {
    if kids == [] {
      assert kids + [t] == [t];
    } else {
      assert (kids + [t])[1..] == kids[1..] + [t];
      ValuesBelowAppend(kids[1..], t);
    }
  }

  // ---------------------------------------------------------------- insert

  /** `insert` keeps the shape of the trie: one-unit edges, siblings with different first units, no dead leaf. */
  lemma {:induction false} InsertShape(t: Trie, key: Word, value: Token)
    requires WellFormed(t) && Raw(t) && Live(t)
    ensures var r := Insert(t, key, value);
      WellFormed(r) && Raw(r) && Live(r) && r.prefix == t.prefix && (r.value.Some? || r.kids != [])
    decreases key
  {
    if key != [] {
      var i := IndexOf(t.kids, [key[0]]);
      var kid := KidFor(t, key);
      InsertShape(kid, key[1..], value);
      var r := Insert(t, key, value);
      forall j | 0 <= j < |t.kids| && j != i
        ensures t.kids[j].prefix[0] != key[0]
      {
        assert t.kids[j] in t.kids;
      }
      forall k | k in r.kids
        ensures WellFormed(k) && |k.prefix| == 1 && Raw(k) && Live(k) && (k.value.Some? || k.kids != [])
      {
        assert k in t.kids || k == Insert(kid, key[1..], value);
      }
    }
  }

  lemma NoChildFor(t: Trie, key: Word)
    requires WellFormed(t) && Raw(t) && key != [] && IndexOf(t.kids, [key[0]]) == |t.kids|
    ensures forall j :: 0 <= j < |t.kids| ==> t.kids[j].prefix[0] != key[0]
  {
    forall j | 0 <= j < |t.kids|
      ensures t.kids[j].prefix[0] != key[0]
    {
      assert t.kids[j] in t.kids;
    }
  }

  /** In a trie of one-unit edges, a lookup descends into the child that `insert` would. */
  lemma FindThroughKid(t: Trie, key: Word)
    requires WellFormed(t) && Raw(t) && key != []
    ensures Find(t, key) == Find(KidFor(t, key), key[1..])
  {
    var i := IndexOf(t.kids, [key[0]]);
    if i < |t.kids| {
      assert t.kids[i].prefix <= key;
      FindInAt(t.kids, key, i);
    } else {
      NoChildFor(t, key);
      FindInNone(t.kids, key);
      assert FindIn([], key[1..]) == None;
    }
  }

  lemma {:induction false} IndexIs(kids: seq<Trie>, prefix: Word, i: nat)
    requires i <= |kids| && (i < |kids| ==> kids[i].prefix == prefix)
    requires forall j :: 0 <= j < i ==> kids[j].prefix != prefix
    ensures IndexOf(kids, prefix) == i
  {
  }

  /** A dictionary write changes the entry of one prefix only. */
  lemma {:induction false} PutIndexOf(kids: seq<Trie>, t: Trie, prefix: Word)
    ensures IndexOf(Put(kids, t), t.prefix) == IndexOf(kids, t.prefix) < |Put(kids, t)|
    ensures Put(kids, t)[IndexOf(kids, t.prefix)] == t
    ensures prefix != t.prefix && IndexOf(kids, prefix) < |kids| ==>
      IndexOf(Put(kids, t), prefix) == IndexOf(kids, prefix) < |Put(kids, t)|
      && Put(kids, t)[IndexOf(kids, prefix)] == kids[IndexOf(kids, prefix)]
    ensures prefix != t.prefix && IndexOf(kids, prefix) == |kids| ==> IndexOf(Put(kids, t), prefix) == |Put(kids, t)|
  {
    var after, i, k := Put(kids, t), IndexOf(kids, t.prefix), IndexOf(kids, prefix);
    IndexIs(after, t.prefix, i);
    if prefix != t.prefix {
      IndexIs(after, prefix, if k < |kids| then k else |after|);
    }
  }

  /** `insert` rebinds exactly one word. */
  lemma {:induction false} InsertFind(t: Trie, key: Word, value: Token, s: Word)
    requires WellFormed(t) && Raw(t) && Live(t)
    ensures Find(Insert(t, key, value), s) == if s == key then Some(value) else Find(t, s)
    decreases key
  {
    if key != [] && s != [] {
      InsertShape(t, key, value);
      FindThroughKid(t, s);
      FindThroughKid(Insert(t, key, value), s);
      InsertedKid(t, key, value, s);
      if s[0] == key[0] {
        InsertFind(KidFor(t, key), key[1..], value, s[1..]);
        SameRest(s, key);
      }
    }
  }

  /** Where a lookup goes on after an insertion. */
  lemma InsertedKid(t: Trie, key: Word, value: Token, s: Word)
    requires WellFormed(t) && Raw(t) && Live(t) && key != [] && s != []
    ensures KidFor(Insert(t, key, value), s)
         == if s[0] == key[0] then Insert(KidFor(t, key), key[1..], value) else KidFor(t, s)
    ensures s[0] == key[0] ==> KidFor(t, s) == KidFor(t, key)
  {
    var after := Insert(KidFor(t, key), key[1..], value);
    assert after.prefix == [key[0]];
    assert [s[0]] == [key[0]] <==> s[0] == key[0];
    PutIndexOf(t.kids, after, [s[0]]);
  }

  lemma SameRest(a: Word, b: Word)
    requires a != [] && b != [] && a[0] == b[0]
    ensures a == b <==> a[1..] == b[1..]
  {
    assert a == [a[0]] + a[1..] && b == [b[0]] + b[1..];
  }

  /** `insert` adds one value, unless the word was already bound. */
  lemma {:induction false} InsertValues(t: Trie, key: Word, value: Token)
    requires WellFormed(t) && Raw(t) && Live(t)
    ensures Values(Insert(t, key, value)) == Values(t) + if Find(t, key).None? then 1 else 0
    decreases key
  {
    if key != [] {
      var i := IndexOf(t.kids, [key[0]]);
      var kid := KidFor(t, key);
      var after := Insert(kid, key[1..], value);
      InsertValues(kid, key[1..], value);
      FindThroughKid(t, key);
      if i < |t.kids| {
        ValuesBelowUpdate(t.kids, i, after);
      } else {
        ValuesBelowAppend(t.kids, after);
      }
    }
  }

  lemma {:induction false} BuildShape(keywords: seq<(Word, Token)>)
    ensures var t := Build(keywords); WellFormed(t) && Raw(t) && Live(t) && t.prefix == []
  {
    if keywords != [] {
      var last := |keywords| - 1;
      BuildShape(keywords[..last]);
      InsertShape(Build(keywords[..last]), keywords[last].0, keywords[last].1);
    }
  }

  function Get(table: map<Word, Token>, s: Word): Option<Token> {
    if s in table then Some(table[s]) else None
  }

  /** The trie built by inserting the keywords one by one holds exactly the keyword table. */
  lemma {:induction false} BuildFind(keywords: seq<(Word, Token)>, s: Word)
    ensures Find(Build(keywords), s) == Get(Table(keywords), s)
  {
    if keywords == [] {
      assert Find(EMPTY, s) == None;
    } else {
      var last := |keywords| - 1;
      BuildFind(keywords[..last], s);
      BuildShape(keywords[..last]);
      InsertFind(Build(keywords[..last]), keywords[last].0, keywords[last].1, s);
    }
  }

  /** It has as many values as the table has keys. */
  lemma {:induction false} BuildValues(keywords: seq<(Word, Token)>)
    ensures Values(Build(keywords)) == |Table(keywords)|
  {
    if keywords != [] {
      var last := |keywords| - 1;
      BuildValues(keywords[..last]);
      BuildShape(keywords[..last]);
      BuildFind(keywords[..last], keywords[last].0);
      InsertValues(Build(keywords[..last]), keywords[last].0, keywords[last].1);
      MapAdd(Table(keywords[..last]), keywords[last].0, keywords[last].1);
    }
  }

  lemma MapAdd(m: map<Word, Token>, k: Word, v: Token)
    ensures |m[k := v]| == |m| + if k in m then 0 else 1
  {
    assert m[k := v].Keys == m.Keys + {k};
  }

  // ---------------------------------------------------------------- coalesce

  function Coalesce(t: Trie): Trie
    decreases t, 1
  {
    var kids := PutAll([], CoalesceEach(t.kids));
    if t.value.Some? || |kids| != 1 then t.(kids := kids)
    else Trie(t.prefix + kids[0].prefix, kids[0].value, kids[0].kids)
  }

  function CoalesceEach(kids: seq<Trie>): (r: seq<Trie>)
    ensures |r| == |kids|
    decreases kids, 0
  {
    if kids == [] then [] else [Coalesce(kids[0])] + CoalesceEach(kids[1..])
  }

  /** The loop that files each trie under its prefix, which may overwrite an earlier entry. */
  function PutAll(done: seq<Trie>, tries: seq<Trie>): seq<Trie>
    decreases tries
  {
    if tries == [] then done else PutAll(Put(done, tries[0]), tries[1..])
  }

  /** The driver drops what `coalesce` returns for the root: only the root's children change. */
  function CoalesceRoot(t: Trie): Trie {
    t.(kids := PutAll([], CoalesceEach(t.kids)))
  }

  /** A coalesced trie's prefix extends the old one. */
  lemma CoalescePrefix(t: Trie)
    requires t.prefix != []
    ensures t.prefix <= Coalesce(t).prefix && Coalesce(t).prefix[0] == t.prefix[0]
  {
  }

  /** Filing siblings with different first units never overwrites an entry, and keeps their order. */
  lemma {:induction false} PutAllDistinct(done: seq<Trie>, tries: seq<Trie>)
    requires Distinct(done + tries)
    ensures PutAll(done, tries) == done + tries
    decreases tries
  {
    if tries == [] {
      assert done + tries == done;
    } else {
      var all := done + tries;
      assert forall i :: 0 <= i < |done| ==> done[i] == all[i];
      assert all[|done|] == tries[0];
      assert done + [tries[0]] + tries[1..] == all;
      PutAllDistinct(done + [tries[0]], tries[1..]);
    }
  }

  lemma {:induction false} CoalesceEachFirst(kids: seq<Trie>, i: nat)
    requires i < |kids| && forall j :: 0 <= j < |kids| ==> kids[j].prefix != []
    ensures CoalesceEach(kids)[i].prefix != [] && CoalesceEach(kids)[i].prefix[0] == kids[i].prefix[0]
  {
    if i == 0 {
      CoalescePrefix(kids[0]);
    } else {
      CoalesceEachFirst(kids[1..], i - 1);
    }
  }

  lemma CoalesceEachDistinct(kids: seq<Trie>)
    requires Distinct(kids)
    ensures Distinct(CoalesceEach(kids))
  {
    var cs := CoalesceEach(kids);
    forall i | 0 <= i < |kids|
      ensures cs[i].prefix != [] && cs[i].prefix[0] == kids[i].prefix[0]
    {
      CoalesceEachFirst(kids, i);
    }
  }

  /** Re-keying the coalesced children drops no subtree. */
  lemma RekeyKids(t: Trie)
    requires WellFormed(t)
    ensures Distinct(CoalesceEach(t.kids))
    ensures PutAll([], CoalesceEach(t.kids)) == CoalesceEach(t.kids)
  {
    CoalesceEachDistinct(t.kids);
    assert [] + CoalesceEach(t.kids) == CoalesceEach(t.kids);
    PutAllDistinct([], CoalesceEach(t.kids));
  }

  /** `coalesce` keeps siblings apart and leaves no descendant without a value and with a single child. */
  lemma {:induction false} CoalesceShape(t: Trie)
    requires WellFormed(t) && Live(t)
    ensures WellFormed(Coalesce(t)) && Compact(Coalesce(t)) && Live(Coalesce(t))
    ensures t.value.Some? || t.kids != [] ==> Coalesce(t).value.Some? || |Coalesce(t).kids| >= 2
    decreases t
  {
    RekeyKids(t);
    CoalesceEachShape(t.kids);
  }

  lemma {:induction false} CoalesceEachShape(kids: seq<Trie>)
    requires forall kid :: kid in kids ==> WellFormed(kid) && Live(kid) && (kid.value.Some? || kid.kids != [])
    ensures forall c :: c in CoalesceEach(kids) ==>
      WellFormed(c) && Compact(c) && Live(c) && (c.value.Some? || |c.kids| >= 2)
    decreases kids
  {
    if kids != [] {
      CoalesceShape(kids[0]);
      CoalesceEachShape(kids[1..]);
    }
  }

  /** A node that takes over its only child's value and children answers as the two did. */
  lemma FindMerged(prefix: Word, kid: Trie, s: Word)
    ensures FindFull(Trie(prefix + kid.prefix, kid.value, kid.kids), s)
         == if prefix <= s then FindFull(kid, s[|prefix|..]) else None
  {
    if prefix <= s {
      var rest := s[|prefix|..];
      assert s == prefix + rest;
      PrefixBehind(prefix, kid.prefix, rest);
      if kid.prefix <= rest {
        assert s[|prefix + kid.prefix|..] == rest[|kid.prefix|..];
      }
    }
  }

  lemma PrefixBehind(prefix: Word, p: Word, s: Word)
    ensures prefix + p <= prefix + s <==> p <= s
  {
    assert (prefix + s)[|prefix|..] == s;
    if prefix + p <= prefix + s {
      assert (prefix + s)[|prefix|..|prefix| + |p|] == p;
    }
  }

  lemma FindInOne(kid: Trie, s: Word)
    ensures FindIn([kid], s) == FindFull(kid, s)
  {
    assert FindIn([kid][1..], s) == None;
  }

  /** `coalesce` preserves the lookup of every string. */
  lemma {:induction false} CoalesceFind(t: Trie, s: Word)
    requires WellFormed(t)
    ensures FindFull(Coalesce(t), s) == FindFull(t, s)
    decreases t, 1
  {
    RekeyKids(t);
    var kids := CoalesceEach(t.kids);
    if t.prefix <= s {
      CoalesceEachFind(t.kids, s[|t.prefix|..]);
    }
    if t.value.None? && |kids| == 1 {
      assert kids == [kids[0]];
      FindMerged(t.prefix, kids[0], s);
      if t.prefix <= s {
        FindInOne(kids[0], s[|t.prefix|..]);
        if s[|t.prefix|..] == [] {
          CoalescePrefix(t.kids[0]);
        }
      }
    }
  }

  lemma {:induction false} CoalesceEachFind(kids: seq<Trie>, s: Word)
    requires Distinct(kids) && forall kid :: kid in kids ==> WellFormed(kid)
    ensures FindIn(CoalesceEach(kids), s) == FindIn(kids, s)
    decreases kids, 0
  {
    if kids != [] {
      CoalesceFind(kids[0], s);
      CoalesceEachFind(kids[1..], s);
      assert CoalesceEach(kids)[1..] == CoalesceEach(kids[1..]);
    }
  }

  lemma {:induction false} CoalesceValues(t: Trie)
    requires WellFormed(t)
    ensures Values(Coalesce(t)) == Values(t)
    decreases t, 1
  {
    RekeyKids(t);
    CoalesceEachValues(t.kids);
    var kids := CoalesceEach(t.kids);
    if |kids| == 1 {
      assert kids[1..] == [];
    }
  }

  lemma {:induction false} CoalesceEachValues(kids: seq<Trie>)
    requires Distinct(kids) && forall kid :: kid in kids ==> WellFormed(kid)
    ensures ValuesBelow(CoalesceEach(kids)) == ValuesBelow(kids)
    decreases kids, 0
  {
    if kids != [] {
      CoalesceValues(kids[0]);
      CoalesceEachValues(kids[1..]);
      assert CoalesceEach(kids)[1..] == CoalesceEach(kids[1..]);
    }
  }

  /** Where no node is a one-child relay, there are fewer than two nodes for each value. */
  lemma {:induction false} CompactNodes(kids: seq<Trie>)
    requires forall kid :: kid in kids ==> (kid.value.Some? || |kid.kids| >= 2) && Compact(kid)
    ensures NodesBelow(kids) + |kids| <= 2 * ValuesBelow(kids)
    decreases kids
  {
    if kids != [] {
      CompactNodes(kids[0].kids);
      CompactNodes(kids[1..]);
    }
  }

  // ---------------------------------------------------------------- the trie the generator compiles

  function Coalesced(keywords: seq<(Word, Token)>): Trie {
    CoalesceRoot(Build(keywords))
  }

  lemma {:induction false} CoalescedShape(keywords: seq<(Word, Token)>)
    ensures var t := Coalesced(keywords); t.prefix == [] && WellFormed(t) && Compact(t) && Live(t)
  {
    BuildShape(keywords);
    var t := Build(keywords);
    RekeyKids(t);
    CoalesceEachShape(t.kids);
  }

  /** After building and coalescing, every string looks up to what the keyword table says. */
  lemma CoalescedFind(keywords: seq<(Word, Token)>, s: Word)
    ensures Find(Coalesced(keywords), s) == Get(Table(keywords), s)
  {
    BuildFind(keywords, s);
    BuildShape(keywords);
    var t := Build(keywords);
    RekeyKids(t);
    CoalesceEachFind(t.kids, s);
  }

  /** The coalesced trie has at most 2n - 1 nodes below the root for n distinct keywords. */
  lemma CoalescedSize(keywords: seq<(Word, Token)>)
    requires keywords != []
    ensures NodesBelow(Coalesced(keywords).kids) <= 2 * |Table(keywords)| - 1
  {
    BuildShape(keywords);
    BuildValues(keywords);
    CoalescedShape(keywords);
    var t := Build(keywords);
    RekeyKids(t);
    CoalesceEachValues(t.kids);
    CompactNodes(Coalesced(keywords).kids);
    var last := |keywords| - 1;
    assert keywords[last].0 in Table(keywords);
  }
}
