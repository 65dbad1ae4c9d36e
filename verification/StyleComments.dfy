/**
 * How the state machine for style sheets reads comments: what is put out, what state is left behind, and exactly
 * when a comment makes no difference.
 */
module StyleComments {
  import opened UserStyles

  // ---------------------------------------------------------------- what a comment looks like

  /** `a` is nowhere followed by `b`. */
  predicate NoPair(s: string, a: char, b: char) {
    |s| < 2 || (!(s[0] == a && s[1] == b) && NoPair(s[1..], a, b))
  }

  /** A comment opens at the first character of `s`, which a star follows. */
  predicate OpensFirst(s: string) {
    s != [] && s[0] == '/' && Head(s[1..] + "*") == '*'
  }

  /** How often a comment opens in `s`, which a star follows. */
  function Openings(s: string): nat {
    if s == [] then 0 else (if OpensFirst(s) then 1 else 0) + Openings(s[1..])
  }

  function Comment(inside: string): string {
    "/*" + inside + "*/"
  }

  /** The star that opens the comment is taken for the start of its end. */
  predicate ClosesEarly(inside: string) {
    inside != [] && inside[0] == '/' && !OpensFirst(inside)
  }

  /** How many openings the machine has counted where the comment ends. */
  function Opened(inside: string): nat {
    Openings(inside) + if ClosesEarly(inside) then 0 else 1
  }

  /** The at-block state after `s`: it takes no notice of comments. */
  function MetaAfter(meta: nat, s: string): (r: nat)
    ensures meta <= 4 ==> r <= 4
    decreases s
  {
    if s == [] then meta else MetaAfter(MetaStep(meta, s[0]).state, s[1..])
  }

  /** The character is kept back on account of the at-block state. */
  predicate Mutes(meta: nat, c: char) {
    MetaStep(meta, c).skip || MetaStep(meta, c).state in {1, 2}
  }

  /** Nothing of `s` and the end of a comment after it is put out, unless a comment opens before that. */
  predicate Quiet(s: string, meta: nat)
    decreases s
  {
    if s == [] then Mutes(meta, '*')
    else OpensFirst(s) || (Mutes(meta, s[0]) && Quiet(s[1..], MetaStep(meta, s[0]).state))
  }

  /** When a comment is dropped; `star` says whether a star follows it. */
  predicate Droppable(inside: string, star: bool, meta: nat) {
    && !star
    && MetaAfter(meta, inside) == meta
    && Opened(inside) <= 2
    && (ClosesEarly(inside) ==> Quiet(inside[1..], meta))
  }

  // ---------------------------------------------------------------- one turn of the loop

  // What the proofs need to know about one turn of the loop: in comments, and outside them.

  ghost predicate CommentBehaves(step: Stepper) {
    && (forall p, m :: step(p, '/', '*', State(m, 0)) == Look(State(m, 1), false))
    && (forall p, c, n, m, k: nat :: k > 0 ==>
          step(p, c, n, State(m, k))
          == Look(State(MetaStep(m, c).state, CommentStep(k, p, c, n).state), false))
  }

  ghost predicate LooseBehaves(step: Stepper) {
    forall p, c, n, m :: !(c == '/' && n == '*') ==>
      step(p, c, n, State(m, 0)) == Look(State(MetaStep(m, c).state, 0), !Mutes(m, c) && !(c == ' ' && p == ' '))
  }

  ghost predicate Behaves(step: Stepper) {
    CommentBehaves(step) && LooseBehaves(step)
  }

  lemma StepBehaves()
    ensures Behaves(Step)
  {
  }

  lemma Assoc(a: string, b: string, c: string)
    ensures a + (b + c) == (a + b) + c
  {
  }

  lemma ScanCons(step: Stepper, prev: char, c: char, rest: string, s: State)
    ensures var l := step(prev, Normal(c), Head(rest), s);
      Scan(step, prev, [c] + rest, s)
      == (if l.shown then [Normal(c)] else []) + Scan(step, Normal(c), rest, l.state)
  {
    assert ([c] + rest)[1..] == rest;
  }

  // ---------------------------------------------------------------- text outside comments

  /** What is put out for one character outside comments. */
  function Loose(prev: char, c: char, meta: nat): string {
    if Mutes(meta, c) || (c == ' ' && prev == ' ') then [] else [c]
  }

  lemma LooseChar(step: Stepper, prev: char, c: char, tail: string, meta: nat, next: nat)
    requires LooseBehaves(step) && !(c == '/' && Head(tail) == '*') && next == MetaStep(meta, c).state
    ensures Scan(step, prev, [c] + tail, State(meta, 0))
         == Loose(prev, Normal(c), meta) + Scan(step, Normal(c), tail, State(next, 0))
  {
    ScanCons(step, prev, c, tail, State(meta, 0));
  }

  /** What is put out for text outside comments. */
  function Text(prev: char, s: string, meta: nat): string
    decreases s
  {
    if s == [] then []
    else Loose(prev, Normal(s[0]), meta) + Text(Normal(s[0]), s[1..], MetaStep(meta, s[0]).state)
  }

  function Last(prev: char, s: string): char {
    if s == [] then prev else Normal(s[|s| - 1])
  }

  /** Text in which no comment opens; `all` is what is left to read, `after` what is put out after the text. */
  lemma {:induction false} TextScanTo(
    step: Stepper, prev: char, s: string, rest: string, meta: nat, all: string, after: string)
    requires LooseBehaves(step) && NoPair(s, '/', '*') && Head(rest) != '*' && all == s + rest
    requires after == Scan(step, Last(prev, s), rest, State(MetaAfter(meta, s), 0))
    ensures Scan(step, prev, all, State(meta, 0)) == Text(prev, s, meta) + after
    decreases s
  {
    if s == [] {
      assert all == rest;
    } else {
      var tail, next := s[1..] + rest, MetaStep(meta, s[0]).state;
      assert all == [s[0]] + tail && Head(tail) == if |s| > 1 then s[1] else Head(rest);
      LooseChar(step, prev, s[0], tail, meta, next);
      TextScanTo(step, Normal(s[0]), s[1..], rest, next, tail, after);
      Assoc(Loose(prev, Normal(s[0]), meta), Text(Normal(s[0]), s[1..], next), after);
    }
  }

  lemma TextScan(step: Stepper, prev: char, s: string, rest: string, meta: nat)
    requires LooseBehaves(step) && NoPair(s, '/', '*') && Head(rest) != '*'
    ensures Scan(step, prev, s + rest, State(meta, 0))
         == Text(prev, s, meta) + Scan(step, Last(prev, s), rest, State(MetaAfter(meta, s), 0))
  {
    var after := Scan(step, Last(prev, s), rest, State(MetaAfter(meta, s), 0));
    TextScanTo(step, prev, s, rest, meta, s + rest, after);
  }

  // ---------------------------------------------------------------- comments

  /** The counter after the end of a comment with `count` openings; `star` says whether a star follows. */
  function Closed(count: nat, star: bool): nat {
    if star then (if count == 2 then 2 else count + 1) else if count <= 2 then 0 else count
  }

  predicate Starred(rest: string) {
    Head(rest) == '*'
  }

  lemma CommentEnd(step: Stepper, prev: char, rest: string, meta: nat, comment: nat)
    requires CommentBehaves(step) && comment > 0
    ensures Scan(step, prev, "*/" + rest, State(meta, comment))
         == Scan(step, '/', rest, State(meta, Closed(comment, Starred(rest))))
  {
    assert "*/" + rest == ['*'] + (['/'] + rest);
    ScanCons(step, prev, '*', ['/'] + rest, State(meta, comment));
    ScanCons(step, '*', '/', rest, State(meta, if comment == 2 then 1 else comment));
  }

  /** One character inside a comment that does not end there. */
  lemma CommentChar(step: Stepper, prev: char, c: char, tail: string, meta: nat, comment: nat)
    requires CommentBehaves(step) && comment > 0 && !(c == '*' && Head(tail) == '/')
    requires prev == '*' && c == '/' ==> Head(tail) == '*'
    ensures Scan(step, prev, [c] + tail, State(meta, comment))
         == Scan(step, Normal(c), tail,
                 State(MetaStep(meta, c).state, if c == '/' && Head(tail) == '*' then comment + 1 else comment))
  {
    ScanCons(step, prev, c, tail, State(meta, comment));
  }

  lemma HeadOfRest(s: string, rest: string)
    requires s != []
    ensures s + ("*/" + rest) == [s[0]] + (s[1..] + ("*/" + rest))
    ensures Head(s[1..] + ("*/" + rest)) == Head(s[1..] + "*") == if |s| > 1 then s[1] else '*'
  {
  }

  /** From inside a comment to its end; `all` is what is left to read, `last` the state after the end. */
  lemma {:induction false} InComment(
    step: Stepper, prev: char, s: string, rest: string, meta: nat, comment: nat, all: string, last: State)
    requires CommentBehaves(step) && comment > 0 && NoPair(s, '*', '/')
    requires prev == '*' && Head(s) == '/' ==> OpensFirst(s)
    requires all == s + ("*/" + rest)
    requires last == State(MetaAfter(meta, s), Closed(comment + Openings(s), Starred(rest)))
    ensures Scan(step, prev, all, State(meta, comment)) == Scan(step, '/', rest, last)
    decreases s
  {
    if s == [] {
      assert all == "*/" + rest;
      CommentEnd(step, prev, rest, meta, comment);
    } else {
      var tail := s[1..] + ("*/" + rest);
      HeadOfRest(s, rest);
      var next := if OpensFirst(s) then comment + 1 else comment;
      InComment(step, Normal(s[0]), s[1..], rest, MetaStep(meta, s[0]).state, next, tail, last);
      CommentChar(step, prev, s[0], tail, meta, comment);
    }
  }

  /** What is put out of `s` and the end of a comment after it, before a comment opens in `s`. */
  function Spill(prev: char, s: string, meta: nat, star: bool): string
    decreases s
  {
    if s == [] then (if Mutes(meta, '*') then [] else if star then "*" else "*/")
    else if OpensFirst(s) then []
    else
      Loose(prev, Normal(s[0]), meta) + Spill(Normal(s[0]), s[1..], MetaStep(meta, s[0]).state, star)
  }

  /** The end of a comment, read outside comments. */
  lemma LooseEnd(step: Stepper, prev: char, rest: string, meta: nat)
    requires CommentBehaves(step) && LooseBehaves(step)
    ensures Scan(step, prev, "*/" + rest, State(meta, 0))
         == Spill(prev, [], meta, Starred(rest)) + Scan(step, '/', rest, State(meta, Closed(0, Starred(rest))))
  {
    assert "*/" + rest == ['*'] + (['/'] + rest);
    ScanCons(step, prev, '*', ['/'] + rest, State(meta, 0));
    ScanCons(step, '*', '/', rest, State(meta, 0));
  }

  /** The inside of a comment that was closed early, as far as its end; `after` is what is put out after that. */
  lemma {:induction false} LooseScan(
    step: Stepper, prev: char, s: string, rest: string, meta: nat, all: string, last: State, after: string)
    requires CommentBehaves(step) && LooseBehaves(step) && NoPair(s, '*', '/')
    requires all == s + ("*/" + rest) && after == Scan(step, '/', rest, last)
    requires last == State(MetaAfter(meta, s), Closed(Openings(s), Starred(rest)))
    ensures Scan(step, prev, all, State(meta, 0)) == Spill(prev, s, meta, Starred(rest)) + after
    decreases s
  {
    if s == [] {
      assert all == "*/" + rest;
      LooseEnd(step, prev, rest, meta);
    } else {
      var tail, next := s[1..] + ("*/" + rest), MetaStep(meta, s[0]).state;
      HeadOfRest(s, rest);
      if OpensFirst(s) {
        ScanCons(step, prev, '/', tail, State(meta, 0));
        InComment(step, '/', s[1..], rest, meta, 1, tail, last);
      } else {
        LooseChar(step, prev, s[0], tail, meta, next);
        LooseScan(step, Normal(s[0]), s[1..], rest, next, tail, last, after);
        Assoc(Loose(prev, Normal(s[0]), meta), Spill(Normal(s[0]), s[1..], next, Starred(rest)), after);
      }
    }
  }

  function Spilled(inside: string, meta: nat, star: bool): string {
    if ClosesEarly(inside) then Spill('/', inside[1..], meta, star) else []
  }

  lemma CommentStart(step: Stepper, prev: char, rest: string, meta: nat)
    requires CommentBehaves(step)
    ensures Scan(step, prev, "/*" + rest, State(meta, 0)) == Scan(step, '*', rest, State(meta, 1))
  {
    assert "/*" + rest == ['/'] + (['*'] + rest);
    ScanCons(step, prev, '/', ['*'] + rest, State(meta, 0));
    ScanCons(step, '/', '*', rest, State(meta, 1));
  }

  /** What any comment puts out, and the state it leaves behind. */
  lemma CommentScan(step: Stepper, prev: char, s: string, rest: string, meta: nat, last: State)
    requires CommentBehaves(step) && LooseBehaves(step) && NoPair(s, '*', '/')
    requires last == State(MetaAfter(meta, s), Closed(Opened(s), Starred(rest)))
    ensures Scan(step, prev, Comment(s) + rest, State(meta, 0))
         == Spilled(s, meta, Starred(rest)) + Scan(step, '/', rest, last)
  {
    var inside := s + ("*/" + rest);
    assert Comment(s) + rest == "/*" + inside;
    CommentStart(step, prev, inside, meta);
    if ClosesEarly(s) {
      HeadOfRest(s, rest);
      ScanCons(step, '*', '/', s[1..] + ("*/" + rest), State(meta, 1));
      LooseScan(step, '/', s[1..], rest, meta, s[1..] + ("*/" + rest), last, Scan(step, '/', rest, last));
    } else {
      InComment(step, '*', s, rest, meta, 1, inside, last);
    }
  }

  /** Nothing is spilled exactly when nothing can be seen until a comment opens. */
  lemma {:induction false} SpillQuiet(prev: char, s: string, meta: nat)
    requires meta <= 4 && (prev == ' ' ==> meta in {1, 2})
    ensures Spill(prev, s, meta, false) == [] <==> Quiet(s, meta)
    decreases s
  {
    if s != [] && !OpensFirst(s) && Mutes(meta, s[0]) {
      SpillQuiet(Normal(s[0]), s[1..], MetaStep(meta, s[0]).state);
    }
  }

  lemma DroppableScan(step: Stepper, prev: char, s: string, rest: string, meta: nat)
    requires CommentBehaves(step) && LooseBehaves(step) && meta <= 4 && NoPair(s, '*', '/')
    requires Droppable(s, Starred(rest), meta)
    ensures Scan(step, prev, Comment(s) + rest, State(meta, 0)) == Scan(step, '/', rest, State(meta, 0))
  {
    CommentScan(step, prev, s, rest, meta, State(meta, 0));
    if ClosesEarly(s) {
      SpillQuiet('/', s[1..], meta);
    }
  }

  // ---------------------------------------------------------------- states told apart

  /** Text without slashes and stars. */
  ghost predicate Plain(s: string) {
    '/' !in s && '*' !in s
  }

  lemma {:induction false} HiddenText(step: Stepper, prev: char, s: string, meta: nat, comment: nat)
    requires CommentBehaves(step) && comment > 0 && Plain(s)
    ensures Scan(step, prev, s, State(meta, comment)) == []
    decreases s
  {
    if s != [] {
      assert s == [s[0]] + s[1..] && s[0] in s;
      CommentChar(step, prev, s[0], s[1..], meta, comment);
      HiddenText(step, Normal(s[0]), s[1..], MetaStep(meta, s[0]).state, comment);
    }
  }

  /** What is put out for plain text after a comment. */
  function Probed(s: string, state: State): string {
    if state.comment > 0 then [] else Text('/', s, state.meta)
  }

  lemma {:induction false} PlainHasNoPair(s: string)
    requires Plain(s)
    ensures NoPair(s, '/', '*') && !Starred(s)
  {
    if |s| >= 2 {
      assert s[0] in s;
      PlainHasNoPair(s[1..]);
    }
  }

  lemma ProbeScan(step: Stepper, s: string, state: State)
    requires CommentBehaves(step) && LooseBehaves(step) && Plain(s)
    ensures Scan(step, '/', s, state) == Probed(s, state)
  {
    if state.comment > 0 {
      HiddenText(step, '/', s, state.meta, state.comment);
    } else {
      PlainHasNoPair(s);
      TextScan(step, '/', s, [], state.meta);
      assert s + [] == s;
    }
  }

  /** Enough to tell all states apart from those outside comments. */
  const PROBES: set<string> := {"a", "}", "@", "{a", "n{a"}

  lemma CharTable(meta: nat)
    requires meta <= 4
    ensures Text('/', "a", meta) == if meta in {1, 2} then "" else "a"
    ensures Text('/', "}", meta) == if meta in {1, 2, 3} then "" else "}"
    ensures Text('/', "@", meta) == if meta in {0, 1, 2} then "" else "@"
  {
  }

  lemma HeadTable(prev: char, c: char, meta: nat)
    requires meta <= 4 && c in {'a', 'b'}
    ensures Text(prev, ['{', c], meta) == if meta == 1 then [] else if meta == 2 then [c] else ['{', c]
    ensures Text(prev, ['n', '{', c], meta) == if meta in {1, 2} then [c] else ['n', '{', c]
  {
    TextCons(prev, '{', [c], meta);
    TextCons('{', c, [], MetaStep(meta, '{').state);
    TextCons(prev, 'n', ['{', c], meta);
    TextCons('n', '{', [c], MetaStep(meta, 'n').state);
    TextCons('{', c, [], MetaStep(MetaStep(meta, 'n').state, '{').state);
  }

  lemma TextCons(prev: char, c: char, s: string, meta: nat)
    ensures Text(prev, [c] + s, meta) == Loose(prev, Normal(c), meta) + Text(Normal(c), s, MetaStep(meta, c).state)
  {
    assert ([c] + s)[1..] == s;
  }

  lemma ProbesTell(meta: nat, s: State)
    requires meta <= 4 && s.meta <= 4
    requires forall t :: t in PROBES ==> Probed(t, s) == Probed(t, State(meta, 0))
    ensures s == State(meta, 0)
  {
    CharTable(meta);
    CharTable(s.meta);
    HeadTable('/', 'a', meta);
    HeadTable('/', 'a', s.meta);
    assert "a" in PROBES && "}" in PROBES && "@" in PROBES && "{a" in PROBES && "n{a" in PROBES;
  }

  lemma {:induction false} NothingAfter(step: Stepper, prev: char, rest: string, meta: nat, comment: nat)
    requires CommentBehaves(step) && comment > 2
    ensures Scan(step, prev, rest, State(meta, comment)) == []
    decreases rest
  {
    if rest != [] {
      var c, next := Normal(rest[0]), Head(rest[1..]);
      NothingAfter(step, c, rest[1..], MetaStep(meta, c).state, CommentStep(comment, prev, c, next).state);
    }
  }

  // ---------------------------------------------------------------- when a comment is dropped

  /** Reading the comment makes no difference, whatever comes after it and whether or not that is a star. */
  ghost predicate Dropped(prev: char, inside: string, star: bool, meta: nat) {
    forall rest :: Starred(rest) == star ==>
      Scan(Step, prev, Comment(inside) + rest, State(meta, 0)) == Scan(Step, '/', rest, State(meta, 0))
  }

  /**
   * Comments do not nest in CSS, but the machine counts openings, keeps track of at-blocks inside comments, and
   * takes the star of an opening for that of an end. A comment is dropped exactly when it is opened again at most
   * once, leaves the at-block state as it was, has no star behind it, and is not closed early, or not so that it
   * shows. This holds in text, in the heads of at-blocks and in their bodies.
   */
  lemma CommentIsDropped(prev: char, s: string, star: bool, meta: nat)
    requires meta <= 4 && NoPair(s, '*', '/')
    ensures Dropped(prev, s, star, meta) <==> Droppable(s, star, meta)
  {
    StepBehaves();
    if Droppable(s, star, meta) {
      forall rest | Starred(rest) == star
        ensures Scan(Step, prev, Comment(s) + rest, State(meta, 0)) == Scan(Step, '/', rest, State(meta, 0))
      {
        DroppableScan(Step, prev, s, rest, meta);
      }
    }
    if Dropped(prev, s, star, meta) {
      DroppedIsDroppable(prev, s, star, meta);
    }
  }

  lemma DroppedIsDroppable(prev: char, s: string, star: bool, meta: nat)
    requires Behaves(Step) && meta <= 4 && NoPair(s, '*', '/') && Dropped(prev, s, star, meta)
    ensures Droppable(s, star, meta)
  {
    var last := State(MetaAfter(meta, s), Closed(Opened(s), star));
    if star {
      StarShows(prev, s, meta, last);
    } else {
      assert !Starred([]);
      CommentScan(Step, prev, s, [], meta, last);
      forall t | t in PROBES
        ensures Probed(t, last) == Probed(t, State(meta, 0))
      {
        PlainHasNoPair(t);
        CommentScan(Step, prev, s, t, meta, last);
        ProbeScan(Step, t, last);
        ProbeScan(Step, t, State(meta, 0));
      }
      ProbesTell(meta, last);
      if ClosesEarly(s) {
        SpillQuiet('/', s[1..], meta);
      }
    }
  }

  /** After a star the machine stays in a comment, so that different characters show no difference. */
  lemma StarShows(prev: char, s: string, meta: nat, last: State)
    requires Behaves(Step) && meta <= 4 && NoPair(s, '*', '/')
    requires last == State(MetaAfter(meta, s), Closed(Opened(s), true))
    ensures !Dropped(prev, s, true, meta)
  {
    if Dropped(prev, s, true, meta) {
      StarProbe(prev, s, meta, last, "n{a");
      StarProbe(prev, s, meta, last, "n{b");
      Cancel(Loose('/', '*', meta), Text('*', "n{a", meta), Text('*', "n{b", meta));
      StarTable(meta);
    }
  }

  lemma StarProbe(prev: char, s: string, meta: nat, last: State, t: string)
    requires Behaves(Step) && NoPair(s, '*', '/') && Dropped(prev, s, true, meta) && Plain(t)
    requires last == State(MetaAfter(meta, s), Closed(Opened(s), true))
    ensures Spilled(s, meta, true) == Loose('/', '*', meta) + Text('*', t, meta)
  {
    var rest := ['*'] + t;
    assert Starred(rest);
    CommentScan(Step, prev, s, rest, meta, last);
    StarHidden(Step, t, last);
    StarThen(Step, t, meta);
  }

  lemma Cancel(x: string, a: string, b: string)
    requires x + a == x + b
    ensures a == b
  {
    assert a == (x + a)[|x|..] && b == (x + b)[|x|..];
  }

  lemma StarTable(meta: nat)
    requires meta <= 4
    ensures Text('*', "n{a", meta) != Text('*', "n{b", meta)
  {
    HeadTable('*', 'a', meta);
    HeadTable('*', 'b', meta);
    assert "n{a"[2] == 'a' && "n{b"[2] == 'b';
  }

  lemma StarThen(step: Stepper, s: string, meta: nat)
    requires LooseBehaves(step) && Plain(s)
    ensures Scan(step, '/', ['*'] + s, State(meta, 0)) == Loose('/', '*', meta) + Text('*', s, meta)
  {
    LooseChar(step, '/', '*', s, meta, meta);
    PlainHasNoPair(s);
    TextScan(step, '*', s, [], meta);
    assert s + [] == s;
  }

  lemma StarHidden(step: Stepper, s: string, state: State)
    requires CommentBehaves(step) && state.comment > 0 && Plain(s)
    ensures Scan(step, '/', ['*'] + s, state) == []
  {
    assert Head(s) != '/';
    CommentChar(step, '/', '*', s, state.meta, state.comment);
    HiddenText(step, '*', s, MetaStep(state.meta, '*').state, state.comment);
  }

  /** With two or more openings inside, all of the rest of the style sheet is lost. */
  lemma CommentSwallows(prev: char, s: string, rest: string, meta: nat)
    requires NoPair(s, '*', '/') && Opened(s) > 2
    ensures Scan(Step, prev, Comment(s) + rest, State(meta, 0)) == Spilled(s, meta, Starred(rest))
  {
    StepBehaves();
    var last := State(MetaAfter(meta, s), Closed(Opened(s), Starred(rest)));
    CommentScan(Step, prev, s, rest, meta, last);
    NothingAfter(Step, '/', rest, last.meta, last.comment);
  }

  // One comment for each clause of the condition.

  lemma AtSignMutes()
    ensures !Droppable("@", false, 0) && Flattened("/*@*/a") == ""
  {
    StepBehaves();
    CommentOf("@", "a", "/*@*/a", State(1, 0));
    ScanCons(Step, '/', 'a', [], State(1, 0));
  }

  lemma StarMutes()
    ensures !Droppable("", true, 0) && Flattened("/**/*a") == ""
  {
    StepBehaves();
    CommentOf("", ['*'] + "a", "/**/*a", State(0, 2));
    StarHidden(Step, "a", State(0, 2));
  }

  lemma SlashShows()
    ensures !Droppable("/a", false, 0) && Flattened("/*/a*/") == "a*/"
  {
    StepBehaves();
    CommentOf("/a", "", "/*/a*/", State(0, 0));
  }

  lemma OpeningsMute()
    ensures !Droppable("/* /*", false, 0) && Flattened("/*/* /**/a") == ""
  {
    StepBehaves();
    CommentOf("/* /*", "a", "/*/* /**/a", State(0, 3));
    NothingAfter(Step, '/', "a", 0, 3);
  }

  /** A comment that closes early and is dropped all the same. */
  lemma SlashAndOpening(rest: string)
    requires !Starred(rest)
    ensures ClosesEarly("//*") && Flattened(Comment("//*") + rest) == Scan(Step, '/', rest, State(0, 0))
  {
    assert Opened("//*") == 1 && Quiet("/*", 0);
    CommentIsDropped(NUL, "//*", false, 0);
  }

  lemma CommentOf(s: string, rest: string, all: string, last: State)
    requires Behaves(Step) && NoPair(s, '*', '/') && all == Comment(s) + rest
    requires last == State(MetaAfter(0, s), Closed(Opened(s), Starred(rest)))
    ensures Flattened(all) == Spilled(s, 0, Starred(rest)) + Scan(Step, '/', rest, last)
  {
    CommentScan(Step, NUL, s, rest, 0, last);
  }
}
