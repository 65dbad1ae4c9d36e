/**
 * addons.c: a user style sheet is flattened for injection into a page. A state machine over its characters
 * takes at-blocks apart, drops comments, collapses runs of spaces and replaces line breaks and single quotes.
 */
module UserStyles {

  const NUL: char := '\0'

  function Normal(c: char): char {
    if c == '\n' || c == '\r' then ' ' else if c == '\'' then '\"' else c
  }

  // ---------------------------------------------------------------- the state machine

  /** What is known after looking at one character: whether to go on to the next without output. */
  datatype Verdict = Verdict(state: nat, skip: bool)

  /** `meta`: 1 after '@', 2 in the head of an at-block, 3 in its body, 4 in a rule of its body. */
  function MetaStep(meta: nat, c: char): (v: Verdict)
    ensures meta <= 4 ==> v.state <= 4
  {
    if meta == 0 && c == '@' then Verdict(1, false)
    else if meta == 1 && (c == '-' || c == 'n') then Verdict(2, false)
    else if meta == 2 && c == '{' then Verdict(3, true)
    else if meta == 3 && c == '{' then Verdict(4, false)
    else if meta == 4 && c == '}' then Verdict(3, false)
    else if meta == 3 && c == '}' then Verdict(0, true)
    else Verdict(meta, false)
  }

  function CommentStep(comment: nat, prev: char, c: char, next: char): Verdict {
    if c == '/' && next == '*' then Verdict(comment + 1, false)
    else if comment == 2 && c == '*' && next == '/' then Verdict(1, false)
    else if comment == 1 && prev == '*' && c == '/' then Verdict(0, true)
    else Verdict(comment, false)
  }

  predicate Shown(meta: nat, comment: nat) {
    (meta == 0 || meta >= 3) && comment == 0
  }

  function Head(s: string): char {
    if s == [] then NUL else s[0]
  }

  datatype State = State(meta: nat, comment: nat)

  /** The state after one character, and whether the character is put out. */
  datatype Look = Look(state: State, shown: bool)

  /** One turn of the loop: the character, its normalised predecessor and its successor. */
  function Step(prev: char, c: char, next: char, s: State): (l: Look)
    ensures s.meta <= 4 ==> l.state.meta <= 4
  {
    var m, k := MetaStep(s.meta, c), CommentStep(s.comment, prev, c, next);
    if m.skip then Look(State(m.state, s.comment), false)
    else Look(State(m.state, k.state), !k.skip && !(c == ' ' && prev == ' ') && Shown(m.state, k.state))
  }

  type Stepper = (char, char, char, State) -> Look

  /** The output for `rest`, read after the (normalised) character `prev` in the given state. */
  function Scan(step: Stepper, prev: char, rest: string, s: State): string
    decreases rest
  {
    if rest == [] then []
    else
      var c := Normal(rest[0]);
      var l := step(prev, c, Head(rest[1..]), s);
      (if l.shown then [c] else []) + Scan(step, c, rest[1..], l.state)
  }

  function Flattened(content: string): string {
    Scan(Step, NUL, content, State(0, 0))
  }

  /** The body of the loop, after the character at `i` has been normalised. */
  method LookAt(content: array<char>, i: nat, meta: nat, comment: nat)
    returns (meta': nat, comment': nat, shown: bool)
    requires i + 1 < content.Length && (comment > 0 ==> i > 0)
    ensures Look(State(meta', comment'), shown)
         == Step(Before(content, i), content[i], content[i + 1], State(meta, comment))
  {
    meta', comment', shown := meta, comment, false;
    if meta == 0 && content[i] == '@' {
      meta' := meta + 1;
    } else if meta == 1 && (content[i] == '-' || content[i] == 'n') {
      meta' := meta + 1;
    } else if meta == 2 && content[i] == '{' {
      meta' := meta + 1;
      return;
    } else if meta == 3 && content[i] == '{' {
      meta' := meta + 1;
    } else if meta == 4 && content[i] == '}' {
      meta' := meta - 1;
    } else if meta == 3 && content[i] == '}' {
      meta' := 0;
      return;
    }
    if content[i] == '/' && content[i + 1] == '*' {
      comment' := comment + 1;
    } else if comment == 2 && content[i] == '*' && content[i + 1] == '/' {
      comment' := comment - 1;
    } else if comment == 1 && content[i - 1] == '*' && content[i] == '/' {
      comment' := comment - 1;
      return;
    }
    if content[i] == ' ' && i > 0 && content[i - 1] == ' ' {
      return;
    }
    shown := (meta' == 0 || meta' >= 3) && comment' == 0;
  }

  /** One turn of the loop: the character at `i` is normalised in place and looked at. */
  method Turn(content: array<char>, i: nat, meta: nat, comment: nat)
    returns (meta': nat, comment': nat, shown: bool)
    requires i + 1 < content.Length && (comment > 0 ==> i > 0)
    modifies content
    ensures content[..] == old(content[..])[i := Normal(old(content[i]))]
    ensures Look(State(meta', comment'), shown)
         == Step(old(Before(content, i)), Normal(old(content[i])), old(content[i + 1]), State(meta, comment))
  {
    if content[i] == '\n' || content[i] == '\r' {
      content[i] := ' ';
    }
    if content[i] == '\'' {
      content[i] := '\"';
    }
    meta', comment', shown := LookAt(content, i, meta, comment);
  }

  /**
   * The loop of `addons_get_element_content` for styles, on a NUL-terminated buffer that it normalises in
   * place. The state stays within 0..4.
   */
  method Flatten(content: array<char>) returns (chunks: string)
    requires content.Length > 0 && content[content.Length - 1] == NUL
    modifies content
    ensures chunks == Flattened(old(content[..content.Length - 1]))
    ensures forall k :: 0 <= k < content.Length ==>
      var c := old(content[k]);
      content[k] == if c == '\n' || c == '\r' then ' ' else if c == '\'' then '\"' else c
  {
    var meta, comment, n := 0, 0, content.Length - 1;
    chunks := [];
    ghost var all, text := content[..], content[..n];
    var i := 0;
    while i < n
      invariant 0 <= i <= n && meta <= 4
      invariant comment > 0 ==> i > 0
      invariant content[..] == Normals(all, i)
      invariant chunks + Scan(Step, Before(content, i), text[i..], State(meta, comment)) == Flattened(text)
    {
      assert text[i] == content[..][i] && Head(text[i + 1..]) == content[..][i + 1];
      ScanStep(Step, chunks, Before(content, i), text, i, State(meta, comment));
      var shown;
      meta, comment, shown := Turn(content, i, meta, comment);
      NormalsStep(all, i);
      assert content[..][i] == content[i] == Normal(all[i]);
      if shown {
        chunks := chunks + [content[i]];
      }
      i := i + 1;
    }
    forall k | 0 <= k <= n
      ensures content[k] == Normal(all[k])
    {
      assert content[k] == content[..][k];
    }
  }

  /** The text with its first `i` characters normalised. */
  function Normals(s: string, i: nat): string {
    seq(|s|, k requires 0 <= k < |s| => if k < i then Normal(s[k]) else s[k])
  }

  lemma NormalsStep(s: string, i: nat)
    requires i < |s|
    ensures Normals(s, i + 1) == Normals(s, i)[i := Normal(s[i])]
  {
  }

  /** The character before position `i`, or NUL. */
  function Before(content: array<char>, i: nat): char
    requires i <= content.Length
    reads content
  {
    if i == 0 then NUL else content[i - 1]
  }

  lemma ScanStep(step: Stepper, done: string, prev: char, text: string, i: nat, s: State)
    requires i < |text|
    ensures var c := Normal(text[i]);
      var l := step(prev, c, Head(text[i + 1..]), s);
      done + Scan(step, prev, text[i..], s)
      == (if l.shown then done + [c] else done) + Scan(step, c, text[i + 1..], l.state)
  {
    assert text[i..][1..] == text[i + 1..];
  }

  /** Whatever the input, no line break and no single quote gets into the output, and it does not grow. */
  lemma {:induction false} ScanIsClean(step: Stepper, prev: char, rest: string, s: State)
    ensures forall c :: c in Scan(step, prev, rest, s) ==> c != '\n' && c != '\r' && c != '\''
    ensures |Scan(step, prev, rest, s)| <= |rest|
    decreases rest
  {
    if rest != [] {
      var c := Normal(rest[0]);
      ScanIsClean(step, c, rest[1..], step(prev, c, Head(rest[1..]), s).state);
    }
  }
}
