/**
 * What the state machine makes of whole style sheets: text, comments and at-blocks with their heads and bodies.
 */
module StyleSheets {
  import opened UserStyles
  import opened StyleComments

  // ---------------------------------------------------------------- structured style sheets

  /** A stretch of text, or a comment. */
  datatype Simple = Chars(s: string) | Note(s: string)

  /** The body of an at-block: simple pieces, with rules in braces between them. */
  datatype Body = BodyEnd(parts: seq<Simple>) | BodyRule(parts: seq<Simple>, rule: seq<Simple>, rest: Body)

  /** A style sheet: simple pieces, with at-blocks between them. */
  datatype Style =
    | End(parts: seq<Simple>)
    | Block(parts: seq<Simple>, head: seq<Simple>, body: Body, rest: Style)

  function RenderSimple(p: Simple): string {
    match p
    case Chars(s) => s
    case Note(s) => Comment(s)
  }

  function RenderParts(parts: seq<Simple>): string {
    if parts == [] then [] else RenderSimple(parts[0]) + RenderParts(parts[1..])
  }

  function RenderBody(b: Body): string {
    match b
    case BodyEnd(parts) => RenderParts(parts)
    case BodyRule(parts, rule, rest) => RenderParts(parts) + "{" + RenderParts(rule) + "}" + RenderBody(rest)
  }

  function Render(s: Style): string {
    match s
    case End(parts) => RenderParts(parts)
    case Block(parts, head, body, rest) =>
      RenderParts(parts) + "@" + RenderParts(head) + "{" + RenderBody(body) + "}" + Render(rest)
  }

  /** The text with line breaks and quotes replaced and every run of spaces reduced to its last space. */
  function Squeeze(s: string): string {
    if s == [] then []
    else if Normal(s[0]) == ' ' && |s| > 1 && Normal(s[1]) == ' ' then Squeeze(s[1..])
    else [Normal(s[0])] + Squeeze(s[1..])
  }

  function FlatParts(parts: seq<Simple>): string {
    if parts == [] then []
    else (if parts[0].Chars? then Squeeze(parts[0].s) else []) + FlatParts(parts[1..])
  }

  function FlatBody(b: Body): string {
    match b
    case BodyEnd(parts) => FlatParts(parts)
    case BodyRule(parts, rule, rest) => FlatParts(parts) + "{" + FlatParts(rule) + "}" + FlatBody(rest)
  }

  /** Comments and the frames of at-blocks gone, the rest squeezed piece by piece. */
  function Flat(s: Style): string {
    match s
    case End(parts) => FlatParts(parts)
    case Block(parts, head, body, rest) => FlatParts(parts) + FlatBody(body) + Flat(rest)
  }

  // ---------------------------------------------------------------- which style sheets are read as they are meant

  /** Where text is put out: outside at-blocks, in their bodies, and in the rules of those. */
  predicate Open(meta: nat) {
    meta == 0 || meta == 3 || meta == 4
  }

  /** Characters that leave the state `meta` alone. */
  predicate Neutral(meta: nat, c: char) {
    match meta
    case 0 => c != '@'
    case 3 => c != '{' && c != '}'
    case _ => meta == 4 && c != '}'
  }

  ghost predicate ValidSimple(p: Simple, meta: nat) {
    match p
    case Chars(s) => s != [] && (forall c :: c in s ==> Neutral(meta, c)) && NoPair(s, '/', '*')
    case Note(s) => NoPair(s, '*', '/') && Droppable(s, false, meta)
  }

  /** Text does not follow text, and does not start with a star after a comment. */
  predicate Separate(parts: seq<Simple>) {
    |parts| > 1 && parts[1].Chars? ==> parts[0].Note? && Head(parts[1].s) != '*'
  }

  ghost predicate ValidParts(parts: seq<Simple>, meta: nat) {
    parts == [] || (ValidSimple(parts[0], meta) && Separate(parts) && ValidParts(parts[1..], meta))
  }

  ghost predicate ValidBody(b: Body) {
    match b
    case BodyEnd(parts) => ValidParts(parts, 3)
    case BodyRule(parts, rule, rest) => ValidParts(parts, 3) && ValidParts(rule, 4) && ValidBody(rest)
  }

  /** The machine stays in the head of an at-block: no brace comes after the first '-' or 'n'. */
  predicate Stays(s: string, meta: nat)
    decreases s
  {
    s == [] || (MetaStep(meta, s[0]).state in {1, 2} && Stays(s[1..], MetaStep(meta, s[0]).state))
  }

  /** Pieces of a head, read from the state `meta` on; comments in it are closed where they should be. */
  ghost predicate HeadParts(parts: seq<Simple>, meta: nat) {
    parts == []
    || (&& Stays(parts[0].s, meta) && Separate(parts)
        && (match parts[0]
            case Chars(s) => s != [] && NoPair(s, '/', '*')
            case Note(s) => NoPair(s, '*', '/') && Opened(s) <= 2)
        && HeadParts(parts[1..], MetaAfter(meta, parts[0].s)))
  }

  /** There is a '-' or an 'n' in the head, be it in a comment. */
  predicate Turns(head: seq<Simple>) {
    '-' in RenderParts(head) || 'n' in RenderParts(head)
  }

  ghost predicate ValidHead(head: seq<Simple>) {
    HeadParts(head, 1) && Turns(head)
  }

  ghost predicate Valid(s: Style) {
    match s
    case End(parts) => ValidParts(parts, 0)
    case Block(parts, head, body, rest) => ValidParts(parts, 0) && ValidHead(head) && ValidBody(body) && Valid(rest)
  }

  // ---------------------------------------------------------------- text and simple pieces

  /** What is put out for text read after `prev`. */
  function Squash(prev: char, s: string): string
    decreases s
  {
    if s == [] then []
    else
      var c := Normal(s[0]);
      (if c == ' ' && prev == ' ' then [] else [c]) + Squash(c, s[1..])
  }

  lemma {:induction false} SquashIsSqueeze(s: string)
    requires s != []
    ensures Squeeze(s) == [Normal(s[0])] + Squash(Normal(s[0]), s[1..])
    decreases s
  {
    var c, rest := Normal(s[0]), s[1..];
    if rest == [] {
      assert Squeeze(rest) == Squash(c, rest) == [];
    } else {
      var d, more := Normal(rest[0]), Squash(Normal(rest[0]), rest[1..]);
      SquashIsSqueeze(rest);
      assert Squeeze(rest) == [d] + more;
      if c == ' ' && d == ' ' {
        assert Squeeze(s) == Squeeze(rest) && Squash(c, rest) == [] + more == more;
      } else {
        assert Squeeze(s) == [c] + Squeeze(rest) && Squash(c, rest) == [d] + more;
      }
    }
  }

  lemma {:induction false} NeutralText(prev: char, s: string, meta: nat)
    requires Open(meta) && forall c :: c in s ==> Neutral(meta, c)
    ensures Text(prev, s, meta) == Squash(prev, s) && MetaAfter(meta, s) == meta
    decreases s
  {
    if s != [] {
      assert s[0] in s;
      NeutralText(Normal(s[0]), s[1..], meta);
    }
  }

  predicate IsBlank(c: char) {
    c == ' ' || c == '\n' || c == '\r'
  }

  /** No two neighbouring characters are both blank. */
  predicate SingleBlanks(s: string) {
    forall i :: 0 <= i < |s| - 1 ==> !(IsBlank(s[i]) && IsBlank(s[i + 1]))
  }

  lemma {:induction false} SquashKeeps(prev: char, s: string, i: nat)
    requires SingleBlanks(s) && (s != [] && IsBlank(s[0]) ==> prev != ' ')
    ensures |Squash(prev, s)| == |s|
    ensures i < |s| ==>
      Squash(prev, s)[i] == if s[i] == '\'' then '\"' else if s[i] == '\n' || s[i] == '\r' then ' ' else s[i]
    decreases s
  {
    if s != [] {
      forall k | 0 <= k < |s[1..]| - 1
        ensures !(IsBlank(s[1..][k]) && IsBlank(s[1..][k + 1]))
      {
        assert !(IsBlank(s[k + 1]) && IsBlank(s[k + 1 + 1]));
      }
      assert |s| > 1 ==> !(IsBlank(s[0]) && IsBlank(s[1]));
      SquashKeeps(Normal(s[0]), s[1..], if i > 0 then i - 1 else 0);
    }
  }

  /** A run of blanks comes out as one space, or as nothing after a space. */
  lemma {:induction false} BlankRun(prev: char, s: string)
    requires s != [] && forall i :: 0 <= i < |s| ==> IsBlank(s[i])
    ensures Squash(prev, s) == if prev == ' ' then "" else " "
    decreases s
  {
    if |s| > 1 {
      BlankRun(' ', s[1..]);
    }
  }

  /**
   * Text without at-signs, comments and doubled blanks comes out character by character: a double quote for a single
   * one, a space for a line break, and everything else as it is.
   */
  lemma PlainStyle(s: string, i: nat)
    requires '@' !in s && NoPair(s, '/', '*') && SingleBlanks(s)
    ensures |Flattened(s)| == |s|
    ensures i < |s| ==>
      Flattened(s)[i] == if s[i] == '\'' then '\"' else if s[i] == '\n' || s[i] == '\r' then ' ' else s[i]
  {
    StepBehaves();
    TextScan(Step, NUL, s, [], 0);
    NeutralText(NUL, s, 0);
    SquashKeeps(NUL, s, i);
    assert s + [] == s;
  }

  /** The last character of the pieces. */
  function EndOf(prev: char, parts: seq<Simple>): char
    decreases parts
  {
    if parts == [] then prev
    else EndOf(if parts[0].Chars? then Last(prev, parts[0].s) else '/', parts[1..])
  }

  lemma RenderPartsHead(parts: seq<Simple>, rest: string, meta: nat)
    requires ValidParts(parts, meta) && Head(rest) != '*'
    requires parts != [] && parts[0].Chars? ==> Head(parts[0].s) != '*'
    ensures Head(RenderParts(parts) + rest) != '*'
  {
    if parts == [] {
      assert RenderParts(parts) + rest == rest;
    }
  }

  lemma CharsScan(step: Stepper, prev: char, s: string, rest: string, meta: nat)
    requires LooseBehaves(step) && Open(meta) && ValidSimple(Chars(s), meta) && Head(rest) != '*' && prev != ' '
    ensures Scan(step, prev, s + rest, State(meta, 0)) == Squeeze(s) + Scan(step, Last(prev, s), rest, State(meta, 0))
  {
    TextScan(step, prev, s, rest, meta);
    NeutralText(prev, s, meta);
    SquashIsSqueeze(s);
  }

  lemma PartsScan(step: Stepper, prev: char, parts: seq<Simple>, rest: string, meta: nat)
    requires Behaves(step) && Open(meta) && ValidParts(parts, meta) && Head(rest) != '*'
    requires parts != [] && parts[0].Chars? ==> prev != ' '
    ensures Scan(step, prev, RenderParts(parts) + rest, State(meta, 0))
         == FlatParts(parts) + Scan(step, EndOf(prev, parts), rest, State(meta, 0))
  {
    var after := Scan(step, EndOf(prev, parts), rest, State(meta, 0));
    PartsScanTo(step, prev, parts, rest, meta, RenderParts(parts) + rest, after);
  }

  /** `all` is what is left to read, `after` what is put out after the pieces. */
  lemma {:induction false} PartsScanTo(
    step: Stepper, prev: char, parts: seq<Simple>, rest: string, meta: nat, all: string, after: string)
    requires Behaves(step)
    requires Open(meta) && ValidParts(parts, meta) && Head(rest) != '*'
    requires parts != [] && parts[0].Chars? ==> prev != ' '
    requires all == RenderParts(parts) + rest && after == Scan(step, EndOf(prev, parts), rest, State(meta, 0))
    ensures Scan(step, prev, all, State(meta, 0)) == FlatParts(parts) + after
    decreases parts
  {
    if parts == [] {
      assert all == rest;
    } else {
      var p, more := parts[0], parts[1..];
      var tail := RenderParts(more) + rest;
      Assoc(RenderSimple(p), RenderParts(more), rest);
      RenderPartsHead(more, rest, meta);
      if p.Chars? {
        PartsScanTo(step, Last(prev, p.s), more, rest, meta, tail, after);
        CharsScan(step, prev, p.s, tail, meta);
        Assoc(Squeeze(p.s), FlatParts(more), after);
      } else {
        PartsScanTo(step, '/', more, rest, meta, tail, after);
        DroppableScan(step, prev, p.s, tail, meta);
        assert [] + FlatParts(more) == FlatParts(more);
      }
    }
  }

  // ---------------------------------------------------------------- the bodies of at-blocks

  /** The four characters that frame at-blocks and their rules. */
  lemma Frames(step: Stepper, prev: char, rest: string)
    requires LooseBehaves(step)
    ensures Scan(step, prev, ['@'] + rest, State(0, 0)) == Scan(step, '@', rest, State(1, 0))
    ensures Scan(step, prev, ['{'] + rest, State(3, 0)) == ['{'] + Scan(step, '{', rest, State(4, 0))
    ensures Scan(step, prev, ['}'] + rest, State(4, 0)) == ['}'] + Scan(step, '}', rest, State(3, 0))
    ensures Scan(step, prev, ['}'] + rest, State(3, 0)) == Scan(step, '}', rest, State(0, 0))
  {
    LooseChar(step, prev, '@', rest, 0, 1);
    LooseChar(step, prev, '{', rest, 3, 4);
    LooseChar(step, prev, '}', rest, 4, 3);
    LooseChar(step, prev, '}', rest, 3, 0);
  }

  lemma BraceScan(step: Stepper, prev: char, rule: seq<Simple>, after: string)
    requires Behaves(step) && ValidParts(rule, 4)
    ensures Scan(step, prev, ['{'] + (RenderParts(rule) + (['}'] + after)), State(3, 0))
         == ['{'] + (FlatParts(rule) + (['}'] + Scan(step, '}', after, State(3, 0))))
  {
    Frames(step, prev, RenderParts(rule) + (['}'] + after));
    PartsScan(step, '{', rule, ['}'] + after, 4);
    Frames(step, EndOf('{', rule), after);
  }

  lemma RuleScan(step: Stepper, prev: char, parts: seq<Simple>, rule: seq<Simple>, after: string)
    requires Behaves(step) && ValidParts(parts, 3) && ValidParts(rule, 4) && prev != ' '
    ensures Scan(step, prev, RenderParts(parts) + (['{'] + (RenderParts(rule) + (['}'] + after))), State(3, 0))
         == FlatParts(parts) + ['{'] + FlatParts(rule) + ['}'] + Scan(step, '}', after, State(3, 0))
  {
    PartsScan(step, prev, parts, ['{'] + (RenderParts(rule) + (['}'] + after)), 3);
    BraceScan(step, EndOf(prev, parts), rule, after);
    RuleAssoc(FlatParts(parts), FlatParts(rule), Scan(step, '}', after, State(3, 0)));
  }

  lemma RuleAssoc(a: string, b: string, x: string)
    ensures a + (['{'] + (b + (['}'] + x))) == a + ['{'] + b + ['}'] + x
  {
  }

  lemma BodyShape(b: Body, rest: string)
    requires b.BodyRule?
    ensures RenderBody(b) + (['}'] + rest)
         == RenderParts(b.parts) + (['{'] + (RenderParts(b.rule) + (['}'] + (RenderBody(b.rest) + (['}'] + rest)))))
  {
  }

  lemma {:induction false} BodyScan(step: Stepper, prev: char, b: Body, rest: string)
    requires Behaves(step) && ValidBody(b) && prev != ' '
    ensures Scan(step, prev, RenderBody(b) + (['}'] + rest), State(3, 0))
         == FlatBody(b) + Scan(step, '}', rest, State(0, 0))
    decreases b
  {
    match b
    case BodyEnd(parts) =>
      PartsScan(step, prev, parts, ['}'] + rest, 3);
      Frames(step, EndOf(prev, parts), rest);
    case BodyRule(parts, rule, more) =>
      var after := RenderBody(more) + (['}'] + rest);
      RuleScan(step, prev, parts, rule, after);
      BodyScan(step, '}', more, rest);
      BodyShape(b, rest);
      Assoc(FlatParts(parts) + ['{'] + FlatParts(rule) + ['}'], FlatBody(more), Scan(step, '}', rest, State(0, 0)));
  }

  // ---------------------------------------------------------------- the heads of at-blocks

  /** While the machine stays in a head, nothing is put out, and the state tells whether it has turned. */
  lemma {:induction false} StayingText(prev: char, s: string, meta: nat)
    requires meta in {1, 2} && Stays(s, meta)
    ensures Text(prev, s, meta) == [] && MetaAfter(meta, s) == if meta == 2 || '-' in s || 'n' in s then 2 else 1
    decreases s
  {
    if s != [] {
      StayingText(Normal(s[0]), s[1..], MetaStep(meta, s[0]).state);
    }
  }

  lemma {:induction false} StayingSpill(prev: char, s: string, meta: nat)
    requires meta in {1, 2} && Stays(s, meta)
    ensures Spill(prev, s, meta, false) == []
    decreases s
  {
    if s != [] {
      StayingSpill(Normal(s[0]), s[1..], MetaStep(meta, s[0]).state);
    }
  }

  /** The state after a head. */
  function HeadMeta(parts: seq<Simple>, meta: nat): nat
    decreases parts
  {
    if parts == [] then meta else HeadMeta(parts[1..], MetaAfter(meta, parts[0].s))
  }

  /** One piece of a head. */
  lemma HeadPiece(step: Stepper, prev: char, p: Simple, rest: string, meta: nat)
    requires Behaves(step) && meta in {1, 2} && HeadParts([p], meta) && Head(rest) != '*'
    ensures var next := if p.Chars? then Last(prev, p.s) else '/';
      Scan(step, prev, RenderSimple(p) + rest, State(meta, 0)) == Scan(step, next, rest, State(MetaAfter(meta, p.s), 0))
    ensures MetaAfter(meta, p.s) in {1, 2}
  {
    StayingText(prev, p.s, meta);
    match p
    case Chars(s) => TextScan(step, prev, s, rest, meta);
    case Note(s) =>
      CommentScan(step, prev, s, rest, meta, State(MetaAfter(meta, s), 0));
      if ClosesEarly(s) {
        StayingSpill('/', s[1..], meta);
      }
  }

  /** `all` is what is left to read. */
  lemma {:induction false} HeadScan(
    step: Stepper, prev: char, parts: seq<Simple>, rest: string, meta: nat, all: string)
    requires Behaves(step) && meta in {1, 2} && HeadParts(parts, meta) && Head(rest) != '*'
    requires all == RenderParts(parts) + rest
    ensures HeadMeta(parts, meta) in {1, 2}
    ensures Scan(step, prev, all, State(meta, 0))
         == Scan(step, EndOf(prev, parts), rest, State(HeadMeta(parts, meta), 0))
    decreases parts
  {
    if parts == [] {
      assert all == rest;
    } else {
      var p, more := parts[0], parts[1..];
      var tail, next := RenderParts(more) + rest, MetaAfter(meta, p.s);
      Assoc(RenderSimple(p), RenderParts(more), rest);
      HeadRest(parts, rest, meta);
      HeadPiece(step, prev, p, tail, meta);
      HeadScan(step, if p.Chars? then Last(prev, p.s) else '/', more, rest, next, tail);
    }
  }

  /** What comes after the first piece of a head. */
  lemma HeadRest(parts: seq<Simple>, rest: string, meta: nat)
    requires parts != [] && HeadParts(parts, meta) && Head(rest) != '*'
    ensures HeadParts([parts[0]], meta) && Head(RenderParts(parts[1..]) + rest) != '*'
  {
    var more := parts[1..];
    if more == [] {
      assert RenderParts(more) + rest == rest;
    }
    assert [parts[0]][1..] == [];
  }

  lemma {:induction false} HeadTurns(parts: seq<Simple>, meta: nat)
    requires meta in {1, 2} && HeadParts(parts, meta)
    ensures HeadMeta(parts, meta) == if meta == 2 || Turns(parts) then 2 else 1
    decreases parts
  {
    if parts != [] {
      var p := parts[0];
      StayingText(NUL, p.s, meta);
      HeadTurns(parts[1..], MetaAfter(meta, p.s));
      assert forall c :: c in RenderParts(parts) <==> c in RenderSimple(p) || c in RenderParts(parts[1..]);
      assert forall c :: c in RenderSimple(p) && c in {'-', 'n'} <==> c in p.s && c in {'-', 'n'};
    }
  }

  /** The at-sign, the head and the brace after it. */
  lemma HeadToBrace(step: Stepper, prev: char, head: seq<Simple>, inside: string)
    requires Behaves(step) && HeadParts(head, 1)
    ensures Scan(step, prev, ['@'] + (RenderParts(head) + (['{'] + inside)), State(0, 0))
         == Scan(step, '{', inside, State(if Turns(head) then 3 else 1, 0))
  {
    var rest := ['{'] + inside;
    Frames(step, prev, RenderParts(head) + rest);
    HeadScan(step, '@', head, rest, 1, RenderParts(head) + rest);
    HeadTurns(head, 1);
    LooseChar(step, EndOf('@', head), '{', inside, 2, 3);
    LooseChar(step, EndOf('@', head), '{', inside, 1, 1);
  }

  function AtBlock(head: seq<Simple>, body: Body, after: string): string {
    ['@'] + (RenderParts(head) + (['{'] + (RenderBody(body) + (['}'] + after))))
  }

  lemma InsideScan(step: Stepper, prev: char, head: seq<Simple>, body: Body, after: string)
    requires Behaves(step) && ValidHead(head) && ValidBody(body)
    ensures Scan(step, prev, AtBlock(head, body, after), State(0, 0))
         == FlatBody(body) + Scan(step, '}', after, State(0, 0))
  {
    HeadToBrace(step, prev, head, RenderBody(body) + (['}'] + after));
    BodyScan(step, '{', body, after);
  }

  /** Whatever the body and whatever comes before and after it, the frame is dropped and the body kept. */
  ghost predicate Unframed(head: seq<Simple>) {
    forall prev, body, after :: ValidBody(body) ==>
      Scan(Step, prev, AtBlock(head, body, after), State(0, 0))
      == FlatBody(body) + Scan(Step, '}', after, State(0, 0))
  }

  /**
   * After an at-sign the machine waits for a '-' (as in "-moz-document") or an 'n' before it looks for the brace
   * that opens the block. An at-block is taken apart as it should be exactly when its head has one of them, in its
   * text or in a comment.
   */
  lemma HeadOpensBlock(head: seq<Simple>)
    requires HeadParts(head, 1)
    ensures Unframed(head) <==> Turns(head)
  {
    StepBehaves();
    if Turns(head) {
      forall prev, body, after | ValidBody(body)
        ensures Scan(Step, prev, AtBlock(head, body, after), State(0, 0))
             == FlatBody(body) + Scan(Step, '}', after, State(0, 0))
      {
        InsideScan(Step, prev, head, body, after);
      }
    } else {
      UnturnedShows(head);
    }
  }

  /** Otherwise even what follows an empty block is lost. */
  lemma UnturnedShows(head: seq<Simple>)
    requires Behaves(Step) && HeadParts(head, 1) && !Turns(head)
    ensures !Unframed(head)
  {
    var body := BodyEnd([]);
    EmptyBlock(Step, NUL, head, body, "a");
    assert ValidBody(body);
  }

  /** What is put out for an empty block of this kind and a letter after it, and what should be. */
  lemma EmptyBlock(step: Stepper, prev: char, head: seq<Simple>, body: Body, a: string)
    requires Behaves(step) && HeadParts(head, 1) && !Turns(head) && body == BodyEnd([]) && a == "a"
    ensures Scan(step, prev, AtBlock(head, body, a), State(0, 0)) == []
    ensures FlatBody(body) + Scan(step, '}', a, State(0, 0)) == a
  {
    var inside := ['}'] + a;
    assert RenderBody(body) + inside == inside && a == ['a'] + [];
    HeadToBrace(step, prev, head, inside);
    LooseChar(step, '{', '}', a, 1, 1);
    LooseChar(step, '}', 'a', [], 1, 1);
    LooseChar(step, '}', 'a', [], 0, 0);
  }

  /** For heads without comments: any text up to the first brace. */
  lemma PlainHeadOpensBlock(head: string)
    requires '{' !in head && NoPair(head, '/', '*')
    ensures var parts := if head == [] then [] else [Chars(head)];
      Unframed(parts) <==> '-' in head || 'n' in head
  {
    var parts := if head == [] then [] else [Chars(head)];
    NoBraceStays(head, 1);
    assert head != [] ==> parts[1..] == [] && RenderParts(parts) == head;
    HeadOpensBlock(parts);
  }

  lemma {:induction false} NoBraceStays(s: string, meta: nat)
    requires meta in {1, 2} && '{' !in s
    ensures Stays(s, meta)
    decreases s
  {
    if s != [] {
      NoBraceStays(s[1..], MetaStep(meta, s[0]).state);
    }
  }

  /** After an at-sign, all text without a '-' or an 'n' is lost. */
  lemma AtSignWithout(prev: char, s: string)
    requires '-' !in s && 'n' !in s && NoPair(s, '/', '*')
    ensures Scan(Step, prev, ['@'] + s, State(0, 0)) == []
  {
    StepBehaves();
    Frames(Step, prev, s);
    Unturned('@', s);
    TextScan(Step, '@', s, [], 1);
    assert s + [] == s;
  }

  lemma {:induction false} Unturned(prev: char, s: string)
    requires '-' !in s && 'n' !in s
    ensures Text(prev, s, 1) == []
    decreases s
  {
    if s != [] {
      assert s[0] in s;
      Unturned(Normal(s[0]), s[1..]);
    }
  }

  /** So a media block swallows itself and what follows. */
  lemma MediaIsLost()
    ensures Flattened("@media{a}b") == ""
  {
    AllLost("media{a}b", "@media{a}b");
  }

  lemma AllLost(s: string, all: string)
    requires '-' !in s && 'n' !in s && NoPair(s, '/', '*') && all == ['@'] + s
    ensures Flattened(all) == ""
  {
    AtSignWithout(NUL, s);
  }

  // ---------------------------------------------------------------- rules inside rules

  /** The first brace in a body that is taken for the end of the at-block; there is none at the body's length. */
  function BlockEnd(b: string, meta: nat): (p: nat)
    ensures p <= |b|
    decreases b
  {
    if b == [] || (meta == 3 && b[0] == '}') then 0 else 1 + BlockEnd(b[1..], MetaStep(meta, b[0]).state)
  }

  /**
   * The braces of a body are as the machine expects them: the body's last rule is closed, and where a brace is
   * taken for the end of the at-block already, nothing but braces is left of the body.
   */
  predicate WellBraced(b: string) {
    var p := BlockEnd(b, 3);
    if p == |b| then MetaAfter(3, b) == 3 else Braces(b[p..])
  }

  predicate Braces(s: string) {
    forall i :: 0 <= i < |s| ==> s[i] == '}'
  }

  /** Whatever comes before and after it, the body is put out and the brace after it ends the at-block. */
  ghost predicate BodyKept(b: string) {
    forall prev, after ::
      Scan(Step, prev, b + (['}'] + after), State(3, 0)) == Squash(prev, b) + Scan(Step, '}', after, State(0, 0))
  }

  lemma {:induction false} BeforeEnd(prev: char, b: string, meta: nat)
    requires meta in {3, 4} && BlockEnd(b, meta) == |b|
    ensures Text(prev, b, meta) == Squash(prev, b) && MetaAfter(meta, b) in {3, 4}
    decreases b
  {
    if b != [] {
      BeforeEnd(Normal(b[0]), b[1..], MetaStep(meta, b[0]).state);
    }
  }

  lemma {:induction false} UpToEnd(b: string, meta: nat, p: nat)
    requires meta in {3, 4} && p == BlockEnd(b, meta) < |b|
    ensures b[p] == '}' && BlockEnd(b[..p], meta) == p && MetaAfter(meta, b[..p]) == 3
    decreases b
  {
    if p > 0 {
      UpToEnd(b[1..], MetaStep(meta, b[0]).state, p - 1);
      assert b[..p][0] == b[0] && b[..p][1..] == b[1..][..p - 1];
    }
  }

  lemma {:induction false} NoPairParts(s: string, i: nat)
    requires NoPair(s, '/', '*') && i <= |s|
    ensures NoPair(s[..i], '/', '*') && NoPair(s[i..], '/', '*')
  {
    if i == 0 {
      assert s[0..] == s;
    } else if |s| >= 2 {
      NoPairParts(s[1..], i - 1);
      assert s[..i][1..] == s[1..][..i - 1] && s[i..] == s[1..][i - 1..];
    }
  }

  lemma {:induction false} SquashAppend(prev: char, a: string, b: string)
    ensures Squash(prev, a + b) == Squash(prev, a) + Squash(Last(prev, a), b)
    decreases a
  {
    if a == [] {
      assert a + b == b;
    } else {
      var c := Normal(a[0]);
      assert (a + b)[1..] == a[1..] + b;
      SquashAppend(c, a[1..], b);
      Assoc(if c == ' ' && prev == ' ' then [] else [c], Squash(c, a[1..]), Squash(Last(prev, a), b));
    }
  }

  /** The body as far as the brace that ends the at-block for the machine. */
  lemma EndScan(step: Stepper, prev: char, x: string, rest: string)
    requires LooseBehaves(step) && NoPair(x, '/', '*') && BlockEnd(x, 3) == |x| && MetaAfter(3, x) == 3
    ensures Scan(step, prev, x + (['}'] + rest), State(3, 0)) == Squash(prev, x) + Scan(step, '}', rest, State(0, 0))
  {
    TextScan(step, prev, x, ['}'] + rest, 3);
    BeforeEnd(prev, x, 3);
    Frames(step, Last(prev, x), rest);
  }

  lemma SplitText(b: string, p: nat, x: string, r: string, after: string)
    requires p < |b| && b[p] == '}' && x == b[..p] && r == b[p + 1..]
    ensures b == x + (['}'] + r) && b + after == x + (['}'] + (r + after))
  {
    assert b == x + (['}'] + r);
    Assoc(['}'], r, after);
    Assoc(x, ['}'] + r, after);
  }

  lemma SplitSquash(prev: char, x: string, r: string)
    ensures Squash(prev, x + (['}'] + r)) == Squash(prev, x) + (['}'] + Squash('}', r))
  {
    SquashAppend(prev, x, ['}'] + r);
    SquashBrace(Last(prev, x), r);
  }

  lemma SquashBrace(prev: char, r: string)
    ensures Squash(prev, ['}'] + r) == ['}'] + Squash('}', r)
  {
    assert (['}'] + r)[1..] == r;
  }

  lemma {:induction false} BracesText(r: string)
    requires Braces(r)
    ensures Text('}', r, 0) == r == Squash('}', r) && MetaAfter(0, r) == 0
  {
    if r != [] {
      BracesText(r[1..]);
      assert r == ['}'] + r[1..];
    }
  }

  /** Braces only, after the end of the at-block. */
  lemma BracesScan(step: Stepper, r: string, after: string)
    requires LooseBehaves(step) && NoPair(r, '/', '*') && Braces(r)
    ensures Scan(step, '}', r + (['}'] + after), State(0, 0))
         == ['}'] + Squash('}', r) + Scan(step, '}', after, State(0, 0))
  {
    TextScan(step, '}', r, ['}'] + after, 0);
    BracesText(r);
    LooseChar(step, Last('}', r), '}', after, 0, 0);
    Assoc(r, ['}'], Scan(step, '}', after, State(0, 0)));
    BraceMoves(r);
  }

  lemma BraceMoves(r: string)
    requires Braces(r)
    ensures r + ['}'] == ['}'] + r
  {
  }

  lemma EarlyEndScan(step: Stepper, prev: char, b: string, p: nat, after: string)
    requires LooseBehaves(step) && NoPair(b, '/', '*') && p == BlockEnd(b, 3) < |b| && Braces(b[p..])
    ensures Scan(step, prev, b + (['}'] + after), State(3, 0)) == Squash(prev, b) + Scan(step, '}', after, State(0, 0))
  {
    var x, r := b[..p], b[p + 1..];
    UpToEnd(b, 3, p);
    NoPairParts(b, p);
    NoPairParts(b, p + 1);
    SplitText(b, p, x, r, ['}'] + after);
    SplitSquash(prev, x, r);
    assert r == b[p..][1..];
    EndScan(step, prev, x, r + (['}'] + after));
    BracesScan(step, r, after);
    Assoc(Squash(prev, x), ['}'] + Squash('}', r), Scan(step, '}', after, State(0, 0)));
  }

  lemma WellBracedScan(step: Stepper, prev: char, b: string, after: string)
    requires LooseBehaves(step) && NoPair(b, '/', '*') && WellBraced(b)
    ensures Scan(step, prev, b + (['}'] + after), State(3, 0)) == Squash(prev, b) + Scan(step, '}', after, State(0, 0))
  {
    if BlockEnd(b, 3) == |b| {
      EndScan(step, prev, b, after);
    } else {
      EarlyEndScan(step, prev, b, BlockEnd(b, 3), after);
    }
  }

  lemma {:induction false} TextIsShorter(prev: char, s: string, meta: nat)
    ensures |Text(prev, s, meta)| <= |Squash(prev, s)|
    decreases s
  {
    if s != [] {
      TextIsShorter(Normal(s[0]), s[1..], MetaStep(meta, s[0]).state);
    }
  }

  /** What is put out for text and a brace after it. */
  function TextAndBrace(prev: char, s: string, meta: nat): string {
    Text(prev, s, meta) + Loose(Last(prev, s), '}', MetaAfter(meta, s))
  }

  /** A brace can only be moved to the front past other braces. */
  lemma {:induction false} OnlyBraces(r: string)
    requires TextAndBrace('}', r, 0) == ['}'] + Squash('}', r)
    ensures Braces(r)
    decreases r
  {
    if r != [] {
      var rest := r[1..];
      assert TextAndBrace('}', r, 0)
          == Loose('}', Normal(r[0]), 0) + TextAndBrace(Normal(r[0]), rest, MetaStep(0, r[0]).state) by {
        Assoc(Loose('}', Normal(r[0]), 0), Text(Normal(r[0]), rest, MetaStep(0, r[0]).state),
              Loose(Last('}', r), '}', MetaAfter(0, r)));
      }
      assert Squash('}', r) == [Normal(r[0])] + Squash(Normal(r[0]), rest);
      if r[0] == '@' {
        TextIsShorter('@', rest, 1);
      } else {
        assert TextAndBrace('}', r, 0)[0] == Normal(r[0]);
        Cancel(['}'], TextAndBrace('}', rest, 0), ['}'] + Squash('}', rest));
        OnlyBraces(rest);
        assert r == [r[0]] + rest;
      }
    }
  }

  // With nothing after it, a body that is not well braced is not kept.

  lemma OpenRuleShows(step: Stepper, b: string)
    requires LooseBehaves(step) && NoPair(b, '/', '*') && BlockEnd(b, 3) == |b| && MetaAfter(3, b) != 3
    ensures Scan(step, NUL, b + ['}'], State(3, 0)) != Squash(NUL, b)
  {
    BeforeEnd(NUL, b, 3);
    TextScan(step, NUL, b, ['}'], 3);
    assert ['}'] == ['}'] + [];
    Frames(step, Last(NUL, b), []);
  }

  /** `all` is the body and the brace after it, `x` and `r` are what comes before and after the machine's end. */
  lemma TextAfterEndShows(step: Stepper, b: string, p: nat, x: string, r: string, all: string, kept: string)
    requires LooseBehaves(step) && NoPair(b, '/', '*') && p == BlockEnd(b, 3) < |b| && x == b[..p] && r == b[p + 1..]
    requires all == b + ['}'] && kept == Squash(NUL, b) && Scan(step, NUL, all, State(3, 0)) == kept
    ensures b[p] == '}' && Braces(r)
  {
    UpToEnd(b, 3, p);
    NoPairParts(b, p);
    NoPairParts(b, p + 1);
    SplitText(b, p, x, r, ['}']);
    EndShows(step, x, r, all, kept);
  }

  lemma EndShows(step: Stepper, x: string, r: string, all: string, kept: string)
    requires LooseBehaves(step) && NoPair(x, '/', '*') && NoPair(r, '/', '*')
    requires BlockEnd(x, 3) == |x| && MetaAfter(3, x) == 3
    requires all == x + (['}'] + (r + ['}'])) && kept == Squash(NUL, x + (['}'] + r))
    requires Scan(step, NUL, all, State(3, 0)) == kept
    ensures Braces(r)
  {
    SplitSquash(NUL, x, r);
    EndScan(step, NUL, x, r + ['}']);
    EndOfText(step, r);
    MovedBrace(Squash(NUL, x), r);
  }

  lemma MovedBrace(x: string, r: string)
    requires x + TextAndBrace('}', r, 0) == x + (['}'] + Squash('}', r))
    ensures Braces(r)
  {
    Cancel(x, TextAndBrace('}', r, 0), ['}'] + Squash('}', r));
    OnlyBraces(r);
  }

  lemma EndOfText(step: Stepper, r: string)
    requires LooseBehaves(step) && NoPair(r, '/', '*')
    ensures Scan(step, '}', r + ['}'], State(0, 0)) == TextAndBrace('}', r, 0)
  {
    var meta := MetaAfter(0, r);
    TextScan(step, '}', r, ['}'], 0);
    assert ['}'] == ['}'] + [];
    LooseChar(step, Last('}', r), '}', [], meta, MetaStep(meta, '}').state);
  }

  lemma BracesFrom(b: string, p: nat)
    requires p < |b| && b[p] == '}' && Braces(b[p + 1..])
    ensures Braces(b[p..])
  {
    assert b[p..] == ['}'] + b[p + 1..];
  }

  lemma KeptIsWellBraced(b: string)
    requires Behaves(Step) && NoPair(b, '/', '*') && BodyKept(b)
    ensures WellBraced(b)
  {
    assert Scan(Step, NUL, b + (['}'] + []), State(3, 0)) == Squash(NUL, b) + Scan(Step, '}', [], State(0, 0));
    assert ['}'] + [] == ['}'];
    var p := BlockEnd(b, 3);
    if p < |b| {
      TextAfterEndShows(Step, b, p, b[..p], b[p + 1..], b + ['}'], Squash(NUL, b));
      BracesFrom(b, p);
    } else if MetaAfter(3, b) != 3 {
      OpenRuleShows(Step, b);
    }
  }

  /**
   * The machine knows rules, but not rules inside rules. For every body without comments, the body is kept whole
   * exactly when its braces are as the machine expects them.
   */
  lemma BodyIsKept(b: string)
    requires NoPair(b, '/', '*')
    ensures BodyKept(b) <==> WellBraced(b)
  {
    StepBehaves();
    if WellBraced(b) {
      forall prev, after
        ensures Scan(Step, prev, b + (['}'] + after), State(3, 0))
             == Squash(prev, b) + Scan(Step, '}', after, State(0, 0))
      {
        WellBracedScan(Step, prev, b, after);
      }
    }
    if BodyKept(b) {
      KeptIsWellBraced(b);
    }
  }

  /** A rule inside a rule is kept if nothing comes after the outer one, but not otherwise. */
  lemma RulesInRules()
    ensures BodyKept("{{}}") && !BodyKept("{{}}e")
  {
    EndsAtThird("{{}}", "");
    EndsAtThird("{{}}e", "e");
    assert "e"[0] == 'e';
  }

  lemma EndsAtThird(b: string, e: string)
    requires b == "{{}}" + e && NoPair(b, '/', '*')
    ensures BodyKept(b) <==> Braces(e)
  {
    assert b[1..][1..] == b[2..] && b[2..][1..] == b[3..];
    assert BlockEnd(b[3..], 3) == 0 && BlockEnd(b[2..], 4) == 1 && BlockEnd(b[1..], 4) == 2 && BlockEnd(b, 3) == 3;
    assert b[3..] == ['}'] + e && e == b[3..][1..];
    BodyIsKept(b);
  }

  // ---------------------------------------------------------------- whole style sheets

  lemma BlockScan(step: Stepper, prev: char, parts: seq<Simple>, head: seq<Simple>, body: Body, after: string)
    requires Behaves(step) && ValidParts(parts, 0) && ValidHead(head) && ValidBody(body) && prev != ' '
    ensures Scan(step, prev, RenderParts(parts) + AtBlock(head, body, after), State(0, 0))
         == FlatParts(parts) + FlatBody(body) + Scan(step, '}', after, State(0, 0))
  {
    PartsScan(step, prev, parts, AtBlock(head, body, after), 0);
    InsideScan(step, EndOf(prev, parts), head, body, after);
    Assoc(FlatParts(parts), FlatBody(body), Scan(step, '}', after, State(0, 0)));
  }

  lemma BlockShape(s: Style)
    requires s.Block?
    ensures Render(s) == RenderParts(s.parts) + AtBlock(s.head, s.body, Render(s.rest))
  {
  }

  lemma {:induction false} StyleScan(step: Stepper, prev: char, s: Style)
    requires Behaves(step) && Valid(s) && prev != ' '
    ensures Scan(step, prev, Render(s), State(0, 0)) == Flat(s)
    decreases s
  {
    match s
    case End(parts) =>
      PartsScan(step, prev, parts, [], 0);
      assert RenderParts(parts) + [] == RenderParts(parts);
      assert FlatParts(parts) + [] == FlatParts(parts);
    case Block(parts, head, body, rest) =>
      BlockScan(step, prev, parts, head, body, Render(rest));
      StyleScan(step, '}', rest);
      BlockShape(s);
  }

  /**
   * A style sheet made of text, comments and at-blocks is flattened to the text outside at-blocks and the
   * bodies inside them, without comments, each piece of text with its runs of spaces collapsed.
   */
  lemma StyleIsFlattened(s: Style)
    requires Valid(s)
    ensures Flattened(Render(s)) == Flat(s)
  {
    StepBehaves();
    StyleScan(Step, NUL, s);
  }
}
