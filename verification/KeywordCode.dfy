/**
 * The decision tree that `printSubTreeAsC` emits, and what it does when the lexer runs it.
 */
module KeywordCode {
  import opened Options
  import opened KeywordTrie
  import opened KeywordWeights
  import opened PackedCompare

  /** `if (!isIdentPartIncludingEscape(code+length, m_codeEnd)) { internalShift<length>(); ...; return token; }` */
  datatype Check = Check(length: nat, name: Word, token: Token)

  /** `if (comparison) { body }`, one arm of an if / else-if chain. */
  datatype Arm = Arm(base: nat, chars: Word, body: Block)

  datatype Block = Block(check: Option<Check>, arms: seq<Arm>)

  // ---------------------------------------------------------------- the compiler

  function Emit(n: Node): Block
    decreases n, 1
  {
    Block(
      if n.value.Some? then Some(Check(|n.full|, n.full, n.value.value)) else None,
      EmitArms(n.kids, |n.full|))
  }

  function EmitArms(kids: seq<Node>, rootIndex: nat): seq<Arm>
    decreases kids, 0
  {
    if kids == [] then [] else [EmitArm(kids[0], rootIndex)] + EmitArms(kids[1..], rootIndex)
  }

  /** A three-character test is widened one position to the left, when there is one. */
  function EmitArm(kid: Node, rootIndex: nat): Arm
    decreases kid, 2
  {
    if rootIndex > 0 && |kid.prefix| == 3 && rootIndex - 1 < |kid.full| then
      Arm(rootIndex - 1, [kid.full[rootIndex - 1]] + kid.prefix, Emit(kid))
    else
      Arm(rootIndex, kid.prefix, Emit(kid))
  }

  function MaxLength(n: Node): nat
    decreases n, 1
  {
    Max(|n.full|, MaxLengthIn(n.kids))
  }

  function MaxLengthIn(nodes: seq<Node>): nat
    decreases nodes, 0
  {
    if nodes == [] then 0 else Max(MaxLength(nodes[0]), MaxLengthIn(nodes[1..]))
  }

  function Max(a: nat, b: nat): nat {
    if b > a then b else a
  }

  // ---------------------------------------------------------------- the machine

  /** The character class and the code representation the emitted code is compiled for. */
  datatype Target = Target(access: Access, wide: bool, identPart: Unit -> bool)

  /** `parseKeyword` returns a keyword's token, having shifted over it and named its identifier, or IDENT. */
  datatype Outcome = Keyword(token: Token, shift: nat, name: Word) | Identifier

  function HexDigit(u: Unit): (d: Option<nat>)
    ensures d.Some? ==> d.value < 16
  {
    if '0' as int <= u <= '9' as int then Some(u - '0' as int)
    else if 'a' as int <= u <= 'f' as int then Some(u - 'a' as int + 10)
    else if 'A' as int <= u <= 'F' as int then Some(u - 'A' as int + 10)
    else None
  }

  /** `convertUnicode`, if there are four hexadecimal digits. */
  function HexDigits(code: seq<Unit>, at: nat): Option<Unit>
    requires at + 4 <= |code|
  {
    var d1, d2, d3, d4 := HexDigit(code[at]), HexDigit(code[at + 1]), HexDigit(code[at + 2]), HexDigit(code[at + 3]);
    if d1.Some? && d2.Some? && d3.Some? && d4.Some? then
      Some(0x1000 * d1.value + 0x100 * d2.value + 0x10 * d3.value + d4.value)
    else None
  }

  predicate UnicodeEscapeIdentPart(code: seq<Unit>, at: nat, identPart: Unit -> bool)
    requires at + 4 <= |code|
  {
    HexDigits(code, at).Some? && identPart(HexDigits(code, at).value)
  }

  predicate IdentPartIncludingEscape(code: seq<Unit>, at: nat, identPart: Unit -> bool)
    requires at < |code|
  {
    || identPart(code[at])
    || (&& code[at] == '\\' as int
        && |code| - at >= 6
        && code[at + 1] == 'u' as int
        && UnicodeEscapeIdentPart(code, at + 2, identPart))
  }

  /** The character, in lower or upper case, is the hexadecimal digit of value `d`. */
  predicate WritesDigit(c: Unit, d: nat) {
    d < 16 && (c == "0123456789abcdef"[d] as int || c == "0123456789ABCDEF"[d] as int)
  }

  /** A backslash, a 'u' and four hexadecimal digits spell the character `u`. */
  predicate Spells(e: seq<Unit>, u: Unit) {
    && |e| == 6 && e[0] == '\\' as int && e[1] == 'u' as int
    && WritesDigit(e[2], u / 0x1000) && WritesDigit(e[3], u / 0x100 % 0x10)
    && WritesDigit(e[4], u / 0x10 % 0x10) && WritesDigit(e[5], u % 0x10)
  }

  lemma HexDigitIs(c: Unit, d: nat)
    ensures HexDigit(c) == Some(d) <==> WritesDigit(c, d)
  {
    var lower, upper := "0123456789abcdef", "0123456789ABCDEF";
    assert forall i :: 0 <= i < 10 ==> lower[i] as int == upper[i] as int == '0' as int + i;
    assert forall i :: 10 <= i < 16 ==>
      lower[i] as int == 'a' as int + i - 10 && upper[i] as int == 'A' as int + i - 10;
  }

  lemma FourDigits(a: nat, b: nat, c: nat, d: nat, u: Unit)
    requires a < 16 && b < 16 && c < 16 && d < 16
    ensures u == 0x1000 * a + 0x100 * b + 0x10 * c + d
      <==> a == u / 0x1000 && b == u / 0x100 % 0x10 && c == u / 0x10 % 0x10 && d == u % 0x10
  {
    assert u == 0x10 * (u / 0x10) + u % 0x10;
    assert u / 0x10 == 0x10 * (u / 0x100) + u / 0x10 % 0x10;
    assert u / 0x100 == 0x10 * (u / 0x1000) + u / 0x100 % 0x10;
  }

  /** The escape test is about the character that is spelled, if any. */
  lemma EscapeTest(code: seq<Unit>, at: nat, u: Unit)
    requires at + 6 <= |code| && code[at] == '\\' as int && code[at + 1] == 'u' as int
    ensures Spells(code[at..at + 6], u) <==> HexDigits(code, at + 2) == Some(u)
  {
    var e := code[at..at + 6];
    HexDigitIs(e[2], u / 0x1000);
    HexDigitIs(e[3], u / 0x100 % 0x10);
    HexDigitIs(e[4], u / 0x10 % 0x10);
    HexDigitIs(e[5], u % 0x10);
    var a, b, c, d := HexDigit(e[2]), HexDigit(e[3]), HexDigit(e[4]), HexDigit(e[5]);
    if a.Some? && b.Some? && c.Some? && d.Some? {
      FourDigits(a.value, b.value, c.value, d.value, u);
    }
  }

  /**
   * A part of an identifier follows: a character that may be part of one, or the escape of such a character,
   * spelled with digits of either case.
   */
  lemma IdentPartFollows(code: seq<Unit>, at: nat, identPart: Unit -> bool)
    requires at < |code|
    ensures IdentPartIncludingEscape(code, at, identPart)
      <==> identPart(code[at]) || exists e, u :: Spells(e, u) && e <= code[at..] && identPart(u)
  {
    if IdentPartIncludingEscape(code, at, identPart) && !identPart(code[at]) {
      var e, u := code[at..at + 6], HexDigits(code, at + 2).value;
      EscapeTest(code, at, u);
      assert e <= code[at..];
    }
    if e, u :| Spells(e, u) && e <= code[at..] && identPart(u) {
      assert e == code[at..at + 6] && e[0] == code[at] && e[1] == code[at + 1];
      EscapeTest(code, at, u);
    }
  }

  /** Only tests that have a macro can be compiled. */
  predicate Compiles(b: Block)
    decreases b, 1
  {
    ArmsCompile(b.arms)
  }

  predicate ArmsCompile(arms: seq<Arm>)
    decreases arms, 0
  {
    arms == [] || (HasMacro(|arms[0].chars|) && Compiles(arms[0].body) && ArmsCompile(arms[1..]))
  }

  /** One more than the largest index the block reads on any path without asking for the end of the code. */
  function Reach(b: Block): nat
    decreases b, 1
  {
    Max(if b.check.Some? then b.check.value.length + 1 else 0, ReachArms(b.arms))
  }

  function ReachArms(arms: seq<Arm>): nat
    decreases arms, 0
  {
    if arms == [] then 0
    else Max(Max(arms[0].base + |arms[0].chars|, Reach(arms[0].body)), ReachArms(arms[1..]))
  }

  function Run(b: Block, code: seq<Unit>, target: Target): Outcome
    requires Compiles(b) && Reach(b) <= |code|
    decreases b, 1
  {
    if b.check.Some? && !IdentPartIncludingEscape(code, b.check.value.length, target.identPart) then
      Keyword(b.check.value.token, b.check.value.length, b.check.value.name)
    else
      RunArms(b.arms, code, target)
  }

  function RunArms(arms: seq<Arm>, code: seq<Unit>, target: Target): Outcome
    requires ArmsCompile(arms) && ReachArms(arms) <= |code|
    decreases arms, 0
  {
    if arms == [] then Identifier
    else if Compare(target.access, target.wide, code, arms[0].base, arms[0].chars) then Run(arms[0].body, code, target)
    else RunArms(arms[1..], code, target)
  }

  // ---------------------------------------------------------------- bounds

  lemma ArmReach(kid: Node, parent: Word)
    requires kid.full == parent + kid.prefix
    ensures var arm := EmitArm(kid, |parent|);
      arm.base + |arm.chars| == |kid.full| && arm.chars == kid.full[arm.base..] && arm.base <= |parent|
      && arm.body == Emit(kid)
  {
    if |parent| > 0 && |kid.prefix| == 3 {
      assert kid.full[|parent| - 1..] == [kid.full[|parent| - 1]] + kid.prefix;
    }
  }

  /** The emitted code reads exactly the first `maxTokenLength` characters, on some path all of them. */
  lemma {:induction false} EmitReach(n: Node)
    requires NodeOk(n)
    ensures Reach(Emit(n)) <= MaxLength(n) + 1
    ensures n.value.Some? || n.kids != [] ==> Reach(Emit(n)) == MaxLength(n) + 1
    decreases n, 1
  {
    EmitArmsReach(n.kids, n.full);
  }

  lemma {:induction false} EmitArmsReach(kids: seq<Node>, parent: Word)
    requires forall kid :: kid in kids ==>
      kid.prefix != [] && kid.full == parent + kid.prefix && (kid.value.Some? || kid.kids != []) && NodeOk(kid)
    ensures ReachArms(EmitArms(kids, |parent|)) == if kids == [] then 0 else MaxLengthIn(kids) + 1
    ensures kids != [] ==> MaxLengthIn(kids) > |parent|
    decreases kids, 0
  {
    if kids != [] {
      EmitReach(kids[0]);
      EmitArmsReach(kids[1..], parent);
      ArmReach(kids[0], parent);
    }
  }

  /** Edges of at most eight characters are exactly what the macros can test. */
  ghost predicate EdgesFit(n: Node) {
    forall kid :: kid in n.kids ==> |kid.prefix| <= 8 && EdgesFit(kid)
  }

  lemma {:induction false} EmitCompiles(n: Node)
    requires NodeOk(n)
    ensures Compiles(Emit(n)) <==> EdgesFit(n)
    decreases n, 1
  {
    EmitArmsCompile(n.kids, n.full);
  }

  lemma {:induction false} EmitArmsCompile(kids: seq<Node>, parent: Word)
    requires forall kid :: kid in kids ==> kid.prefix != [] && kid.full == parent + kid.prefix && NodeOk(kid)
    ensures ArmsCompile(EmitArms(kids, |parent|)) <==> forall kid :: kid in kids ==> |kid.prefix| <= 8 && EdgesFit(kid)
    decreases kids, 0
  {
    if kids != [] {
      EmitCompiles(kids[0]);
      EmitArmsCompile(kids[1..], parent);
      ArmCompiles(kids[0], parent);
      var arm, arms := EmitArm(kids[0], |parent|), EmitArms(kids[1..], |parent|);
      assert EmitArms(kids, |parent|) == [arm] + arms && ([arm] + arms)[1..] == arms;
      assert forall kid :: kid in kids <==> kid == kids[0] || kid in kids[1..];
    }
  }

  /** The number of characters an arm tests has a macro exactly when the edge has at most eight. */
  lemma ArmCompiles(kid: Node, parent: Word)
    requires kid.prefix != [] && kid.full == parent + kid.prefix
    ensures HasMacro(|EmitArm(kid, |parent|).chars|) <==> |kid.prefix| <= 8
    ensures EmitArm(kid, |parent|).body == Emit(kid)
  {
    ArmReach(kid, parent);
  }

  // ---------------------------------------------------------------- correctness

  /** Every character of the tree is a 7-bit one, as the generator writes it between quotes. */
  ghost predicate Ascii(w: Word) {
    forall c :: c in w ==> c < 0x80
  }

  ghost predicate AsciiBelow(n: Node) {
    forall kid :: kid in n.kids ==> Ascii(kid.full) && AsciiBelow(kid)
  }

  /** Below a matched parent, a child's test is true exactly when the child's whole word matches. */
  lemma ArmTest(kid: Node, parent: Word, code: seq<Unit>, target: Target)
    requires kid.full == parent + kid.prefix && parent <= code && |kid.full| <= |code|
    requires Ascii(kid.full) && Fits(code, target.wide)
    requires HasMacro(|EmitArm(kid, |parent|).chars|)
    ensures var arm := EmitArm(kid, |parent|);
      arm.base + |arm.chars| <= |code|
      && (Compare(target.access, target.wide, code, arm.base, arm.chars) <==> kid.full <= code)
  {
    var arm := EmitArm(kid, |parent|);
    ArmReach(kid, parent);
    assert kid.full[..arm.base] == parent[..arm.base] == code[..arm.base];
    TestExact(kid.full, arm.base, arm.chars, code, target);
  }

  /** Below the root no test is of three characters: such a one is made to be of four. */
  lemma ArmWidth(kid: Node, parent: Word)
    requires kid.full == parent + kid.prefix
    ensures var arm := EmitArm(kid, |parent|);
      && |arm.chars| == (if |parent| > 0 && |kid.prefix| == 3 then 4 else |kid.prefix|)
      && arm.base + |arm.chars| == |kid.full|
  {
    ArmReach(kid, parent);
  }

  /** A test of the end of a word whose beginning is known to match. */
  lemma TestExact(word: Word, base: nat, chars: Word, code: seq<Unit>, target: Target)
    requires base <= |word| <= |code| && word[..base] == code[..base] && word[base..] == chars
    requires Ascii(word) && Fits(code, target.wide) && HasMacro(|chars|)
    ensures Compare(target.access, target.wide, code, base, chars) <==> word <= code
  {
    assert forall c :: c in chars ==> c in word;
    CompareExact(target.access, target.wide, code, base, chars);
    PrefixFrom(word, code, base);
  }

  lemma PrefixFrom(word: Word, code: seq<Unit>, base: nat)
    requires base <= |word| <= |code| && word[..base] == code[..base]
    ensures code[base..|word|] == word[base..] <==> word <= code
  {
    assert word == word[..base] + word[base..];
    assert code[..|word|] == code[..base] + code[base..|word|];
  }

  ghost predicate Prepared(kids: seq<Node>, parent: Word, code: seq<Unit>, target: Target) {
    && parent <= code && Fits(code, target.wide)
    && (forall kid :: kid in kids ==>
        kid.prefix != [] && kid.full == parent + kid.prefix && NodeOk(kid) && Ascii(kid.full) && AsciiBelow(kid))
    && ArmsCompile(EmitArms(kids, |parent|))
    && ReachArms(EmitArms(kids, |parent|)) <= |code|
  }

  ghost predicate PreparedNode(n: Node, code: seq<Unit>, target: Target) {
    && NodeOk(n) && AsciiBelow(n) && n.full <= code && Fits(code, target.wide)
    && Compiles(Emit(n)) && Reach(Emit(n)) <= |code|
  }

  lemma PreparedFirst(kids: seq<Node>, parent: Word, code: seq<Unit>, target: Target)
    requires kids != [] && Prepared(kids, parent, code, target)
    ensures Prepared(kids[1..], parent, code, target)
    ensures kids[0].full <= code ==> PreparedNode(kids[0], code, target)
    ensures RunArms(EmitArms(kids, |parent|), code, target)
         == if kids[0].full <= code then Run(Emit(kids[0]), code, target)
            else RunArms(EmitArms(kids[1..], |parent|), code, target)
  {
    ArmReach(kids[0], parent);
    assert EmitArms(kids, |parent|)[1..] == EmitArms(kids[1..], |parent|);
    ArmTest(kids[0], parent, code, target);
  }

  /** What the emitted code returns is a keyword in the code, not followed by an identifier part. */
  lemma {:induction false} RunHit(n: Node, code: seq<Unit>, target: Target)
    requires PreparedNode(n, code, target) && Run(Emit(n), code, target).Keyword?
    ensures var r := Run(Emit(n), code, target);
      r.name <= code && r.shift == |r.name| < |code| && Holds(n, r.name) == Some(r.token)
      && !IdentPartIncludingEscape(code, r.shift, target.identPart)
      && n.full <= r.name
    decreases n, 1
  {
    var check := Emit(n).check;
    if check.None? || IdentPartIncludingEscape(code, check.value.length, target.identPart) {
      RunArmsHit(n.kids, n.full, code, target);
    }
  }

  lemma {:induction false} RunArmsHit(kids: seq<Node>, parent: Word, code: seq<Unit>, target: Target)
    requires Prepared(kids, parent, code, target) && RunArms(EmitArms(kids, |parent|), code, target).Keyword?
    ensures var r := RunArms(EmitArms(kids, |parent|), code, target);
      r.name <= code && r.shift == |r.name| < |code| && HoldsIn(kids, r.name) == Some(r.token)
      && !IdentPartIncludingEscape(code, r.shift, target.identPart)
      && |r.name| > |parent| && parent <= r.name
    decreases kids, 0
  {
    PreparedFirst(kids, parent, code, target);
    if kids[0].full <= code {
      RunHit(kids[0], code, target);
    } else {
      RunArmsHit(kids[1..], parent, code, target);
    }
  }

  /** When the emitted code falls through, every keyword in the code is followed by an identifier part. */
  lemma {:induction false} RunMiss(n: Node, code: seq<Unit>, target: Target, s: Word)
    requires PreparedNode(n, code, target) && Run(Emit(n), code, target).Identifier?
    requires s <= code && |s| < |code| && Holds(n, s).Some?
    ensures IdentPartIncludingEscape(code, |s|, target.identPart)
    decreases n, 1
  {
    if s != n.full {
      RunArmsMiss(n.kids, n.full, code, target, s);
    }
  }

  lemma {:induction false} RunArmsMiss(kids: seq<Node>, parent: Word, code: seq<Unit>, target: Target, s: Word)
    requires Prepared(kids, parent, code, target) && Apart(kids, |parent|)
    requires RunArms(EmitArms(kids, |parent|), code, target).Identifier?
    requires s <= code && |s| < |code| && HoldsIn(kids, s).Some?
    ensures IdentPartIncludingEscape(code, |s|, target.identPart)
    decreases kids, 0
  {
    PreparedFirst(kids, parent, code, target);
    if kids[0].full <= code {
      OnlyFirstMatches(kids, parent, code, s);
      RunMiss(kids[0], code, target, s);
    } else {
      RunArmsMiss(kids[1..], parent, code, target, s);
    }
  }

  /** If the first child matches the code, no later sibling can hold a word of the code. */
  lemma {:induction false} OnlyFirstMatches(kids: seq<Node>, parent: Word, code: seq<Unit>, s: Word)
    requires kids != [] && Apart(kids, |parent|) && kids[0].full <= code && s <= code
    requires HoldsIn(kids, s).Some?
    ensures HoldsFull(kids[0], s).Some?
  {
    var kid := Holder(kids, s);
    assert kids[0] in kids && kid.full[|parent|] == code[|parent|] == kids[0].full[|parent|];
  }

  lemma {:induction false} Holder(kids: seq<Node>, s: Word) returns (kid: Node)
    requires HoldsIn(kids, s).Some?
    ensures kid in kids && kid.full <= s && HoldsFull(kid, s).Some?
  {
    if HoldsFull(kids[0], s).Some? {
      kid := kids[0];
    } else {
      kid := Holder(kids[1..], s);
    }
  }
}
