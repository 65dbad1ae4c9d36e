/**
 * `scanString` of testRegExp.cpp: it reads a string with backslash escapes up to a terminating character.
 *
 * The buffer holds signed chars. `sscanf` with "%04x" is a parameter; it is only known to read four hexadecimal
 * digits as their value.
 */
module RegExpStrings {
  import opened Options
  import opened Bitwise

  type Unit = u: int | 0 <= u < 0x10000

  /** A char of the buffer as a UChar: the sign is extended. */
  function Widen(b: Byte): Unit {
    if b < 0x80 then b else 0xFF00 + b
  }

  const BACKSLASH: Byte := 0x5C
  const LETTER_U: Byte := 0x75

  /** The character that an escaped letter stands for. */
  function Unescape(c: Unit): Unit {
    if c == '0' as int then 0
    else if c == 'a' as int then 7
    else if c == 'b' as int then 8
    else if c == 'f' as int then 12
    else if c == 'n' as int then 10
    else if c == 'r' as int then 13
    else if c == 't' as int then 9
    else if c == 'v' as int then 11
    else c
  }

  /** The returned index, or -1, and what has been appended to the builder. */
  datatype Scanned = Scanned(index: int, text: seq<Unit>)

  type HexReader = seq<Byte> -> Option<nat>

  /** The loop from position `i` on. `term` is a signed char. */
  function Scan(buffer: seq<Byte>, i: nat, escape: bool, text: seq<Unit>, term: int, hex: HexReader): Scanned
    requires i <= |buffer|
    decreases |buffer| - i
  {
    if i == |buffer| then Scanned(-1, text)
    else
      var c := Widen(buffer[i]);
      if escape then
        if c == LETTER_U then
          if i + 4 >= |buffer| then Scanned(-1, text)
          else
            var v := hex(buffer[i + 1..]);
            if v.None? then Scanned(-1, text)
            else Scan(buffer, i + 5, false, text + [v.value % 0x10000], term, hex)
        else Scan(buffer, i + 1, false, text + [Unescape(c)], term, hex)
      else if c == term then Scanned(i, text)
      else if c == BACKSLASH then Scan(buffer, i + 1, true, text, term, hex)
      else Scan(buffer, i + 1, false, text + [c], term, hex)
  }

  method ScanString(buffer: seq<Byte>, term: int, hex: HexReader) returns (index: int, text: seq<Unit>)
    ensures Scanned(index, text) == Scan(buffer, 0, false, [], term, hex)
  {
    var escape, i := false, 0;
    text := [];
    while i < |buffer|
      invariant i <= |buffer|
      invariant Scan(buffer, i, escape, text, term, hex) == Scan(buffer, 0, false, [], term, hex)
    {
      var c := Widen(buffer[i]);
      if escape {
        if c == LETTER_U {
          if i + 4 >= |buffer| {
            return -1, text;
          }
          var v := hex(buffer[i + 1..]);
          if v.None? {
            return -1, text;
          }
          c := v.value % 0x10000;
          i := i + 4;
        } else {
          c := Unescape(c);
        }
        text := text + [c];
        escape := false;
      } else {
        if c == term {
          return i, text;
        }
        if c == BACKSLASH {
          escape := true;
        } else {
          text := text + [c];
        }
      }
      i := i + 1;
    }
    index := -1;
  }

  // ---------------------------------------------------------------- single characters

  /** A backslash and any byte after it but a 'u' give one character: eight letters stand for control characters. */
  lemma EscapeScan(buffer: seq<Byte>, i: nat, text: seq<Unit>, term: int, hex: HexReader)
    requires i + 1 < |buffer| && buffer[i] == '\\' as int && buffer[i + 1] != 'u' as int && term != '\\' as int
    ensures var letters :=
        map['0' := 0, 'a' := 7, 'b' := 8, 'f' := 12, 'n' := 10, 'r' := 13, 't' := 9, 'v' := 11];
      var c := buffer[i + 1] as char;
      var meant: int := if c in letters then letters[c] else if c < 128 as char then c as int else 0xFF00 + c as int;
      Scan(buffer, i, false, text, term, hex) == Scan(buffer, i + 2, false, text + [meant], term, hex)
  {
    var c := Widen(buffer[i + 1]);
    assert Scan(buffer, i, false, text, term, hex) == Scan(buffer, i + 1, true, text, term, hex);
    assert Scan(buffer, i + 1, true, text, term, hex) == Scan(buffer, i + 2, false, text + [Unescape(c)], term, hex);
  }

  /** Any other byte gives itself, as a signed char in sixteen bits. */
  lemma ByteScan(buffer: seq<Byte>, i: nat, b: int, text: seq<Unit>, term: int, hex: HexReader)
    requires i < |buffer| && buffer[i] == b && b != '\\' as int && b != term && term < 0x80
    ensures var signed := if b < 0x80 then b else b - 0x100;
      Scan(buffer, i, false, text, term, hex) == Scan(buffer, i + 1, false, text + [signed % 0x1_0000], term, hex)
  {
  }

  // ---------------------------------------------------------------- round trip

  function HexChar(d: nat): Byte
    requires d < 16
  {
    if d < 10 then '0' as int + d else 'a' as int + d - 10
  }

  function Hex4(u: Unit): seq<Byte> {
    [HexChar(u / 0x1000), HexChar(u / 0x100 % 0x10), HexChar(u / 0x10 % 0x10), HexChar(u % 0x10)]
  }

  /** What is assumed of `sscanf`: four hexadecimal digits, followed by anything, are read as their value. */
  ghost predicate ReadsHex(hex: HexReader) {
    forall u: Unit, rest: seq<Byte> :: hex(Hex4(u) + rest) == Some(u)
  }

  predicate NeedsEscape(u: Unit, term: int) {
    u == BACKSLASH || u == term || u >= 0x80
  }

  function EscapeUnit(u: Unit, term: int): seq<Byte> {
    if NeedsEscape(u, term) then [BACKSLASH, LETTER_U] + Hex4(u) else [u]
  }

  function Escape(s: seq<Unit>, term: int): seq<Byte> {
    if s == [] then [] else EscapeUnit(s[0], term) + Escape(s[1..], term)
  }

  /** One escaped unit is read back, wherever it is in the buffer. */
  lemma UnitReadBack(buffer: seq<Byte>, i: nat, u: Unit, after: seq<Byte>, text: seq<Unit>, term: int, hex: HexReader)
    requires ReadsHex(hex) && 0 <= term < 0x80 && term != BACKSLASH
    requires i <= |buffer| && buffer[i..] == EscapeUnit(u, term) + after
    ensures Scan(buffer, i, false, text, term, hex)
         == Scan(buffer, i + |EscapeUnit(u, term)|, false, text + [u], term, hex)
  {
    assert buffer[i] == buffer[i..][0];
    if NeedsEscape(u, term) {
      assert buffer[i + 1] == buffer[i..][1];
      assert buffer[i + 2..] == buffer[i..][2..] == Hex4(u) + after;
      assert Scan(buffer, i, false, text, term, hex) == Scan(buffer, i + 1, true, text, term, hex);
      assert Scan(buffer, i + 1, true, text, term, hex) == Scan(buffer, i + 6, false, text + [u], term, hex);
    }
  }

  lemma SplitRest(buffer: seq<Byte>, i: nat, e: seq<Byte>, rest: seq<Byte>, after: seq<Byte>)
    requires i <= |buffer| && buffer[i..] == e + rest + after
    ensures i + |e| <= |buffer| && buffer[i..] == e + (rest + after) && buffer[i + |e|..] == rest + after
  {
    assert buffer[i..][|e|..] == rest + after;
  }

  lemma AppendFirst(text: seq<Unit>, s: seq<Unit>)
    requires s != []
    ensures text + [s[0]] + s[1..] == text + s
  {
  }

  type Reader = (nat, seq<Unit>) -> Scanned

  /** The reader goes over the escaped form `e` of the unit at position `i`, and appends the unit. */
  ghost predicate Advances(read: Reader, buffer: seq<Byte>, i: nat, e: seq<Byte>, u: Unit, text: seq<Unit>) {
    i <= |buffer| && e <= buffer[i..] ==> read(i, text) == read(i + |e|, text + [u])
  }

  lemma {:induction false} EscapedReadBack(
    read: Reader, buffer: seq<Byte>, i: nat, s: seq<Unit>, after: seq<Byte>, text: seq<Unit>, term: int,
    e: seq<Byte>, all: seq<Unit>)
    requires forall j, u, t :: Advances(read, buffer, j, EscapeUnit(u, term), u, t)
    requires e == Escape(s, term) && all == text + s
    requires i <= |buffer| && buffer[i..] == e + after
    ensures read(i, text) == read(i + |e|, all)
    decreases s
  {
    if s == [] {
      assert all == text;
    } else {
      var first, rest := EscapeUnit(s[0], term), Escape(s[1..], term);
      SplitRest(buffer, i, first, rest, after);
      AppendFirst(text, s);
      EscapedReadBack(read, buffer, i + |first|, s[1..], after, text + [s[0]], term, rest, all);
      assert Advances(read, buffer, i, first, s[0], text);
    }
  }

  /** The scan of this buffer, outside escapes. */
  function ReaderOf(buffer: seq<Byte>, term: int, hex: HexReader): Reader {
    (i: nat, text) => if i <= |buffer| then Scan(buffer, i, false, text, term, hex) else Scanned(-1, [])
  }

  lemma ReaderAdvances(buffer: seq<Byte>, term: int, hex: HexReader)
    requires ReadsHex(hex) && 0 <= term < 0x80 && term != BACKSLASH
    ensures forall i, u, text :: Advances(ReaderOf(buffer, term, hex), buffer, i, EscapeUnit(u, term), u, text)
  {
    forall i: nat, u: Unit, text
      ensures Advances(ReaderOf(buffer, term, hex), buffer, i, EscapeUnit(u, term), u, text)
    {
      if i <= |buffer| && EscapeUnit(u, term) <= buffer[i..] {
        UnitReadBack(buffer, i, u, buffer[i..][|EscapeUnit(u, term)|..], text, term, hex);
      }
    }
  }

  /** Every string is read back from its escaped form, up to the terminator that follows it. */
  lemma EscapeRoundTrip(s: seq<Unit>, after: seq<Byte>, term: Byte, hex: HexReader)
    requires ReadsHex(hex) && term < 0x80 && term != BACKSLASH
    ensures Scan(Escape(s, term) + [term] + after, 0, false, [], term, hex) == Scanned(|Escape(s, term)|, s)
  {
    var e := Escape(s, term);
    var buffer := e + [term] + after;
    assert buffer[0..] == e + ([term] + after);
    var read := ReaderOf(buffer, term, hex);
    ReaderAdvances(buffer, term, hex);
    EscapedReadBack(read, buffer, 0, s, [term] + after, [], term, e, s);
    assert buffer[|e|] == term;
  }

  // ---------------------------------------------------------------- the other terminators

  /** A terminator that is a negative char is never found: its sign is extended on one side only. */
  lemma {:induction false} NegativeIsNeverFound(
    buffer: seq<Byte>, i: nat, escape: bool, text: seq<Unit>, term: int, hex: HexReader)
    requires i <= |buffer| && term < 0
    ensures Scan(buffer, i, escape, text, term, hex).index == -1
    decreases |buffer| - i
  {
    if i < |buffer| {
      var c := Widen(buffer[i]);
      if !escape {
        NegativeIsNeverFound(buffer, i + 1, c == BACKSLASH, if c == BACKSLASH then text else text + [c], term, hex);
      } else if c != LETTER_U {
        NegativeIsNeverFound(buffer, i + 1, false, text + [Unescape(c)], term, hex);
      } else if i + 4 < |buffer| && hex(buffer[i + 1..]).Some? {
        NegativeIsNeverFound(buffer, i + 5, false, text + [hex(buffer[i + 1..]).value % 0x10000], term, hex);
      }
    }
  }

  /** With a backslash as terminator nothing is unescaped: no string with a backslash can be read at all. */
  lemma {:induction false} BackslashIsNeverRead(buffer: seq<Byte>, i: nat, text: seq<Unit>, hex: HexReader)
    requires i <= |buffer| && BACKSLASH !in text
    ensures BACKSLASH !in Scan(buffer, i, false, text, BACKSLASH, hex).text
    decreases |buffer| - i
  {
    if i < |buffer| && Widen(buffer[i]) != BACKSLASH {
      BackslashIsNeverRead(buffer, i + 1, text + [Widen(buffer[i])], hex);
    }
  }

  /** Some buffer is scanned to exactly this string. */
  ghost predicate Readable(s: seq<Unit>, term: int, hex: HexReader) {
    exists buffer: seq<Byte> ::
      var r := Scan(buffer, 0, false, [], term, hex); r.index >= 0 && r.text == s
  }

  /** Every string can be written down for a terminator exactly when it is a 7-bit character, not a backslash. */
  lemma AllReadable(term: int, hex: HexReader)
    requires ReadsHex(hex) && -0x80 <= term < 0x80
    ensures (forall s :: Readable(s, term, hex)) <==> 0 <= term && term != BACKSLASH
  {
    if term < 0 {
      assert !Readable([], term, hex) by {
        forall buffer: seq<Byte>
          ensures Scan(buffer, 0, false, [], term, hex).index == -1
        {
          NegativeIsNeverFound(buffer, 0, false, [], term, hex);
        }
      }
    } else if term == BACKSLASH {
      assert !Readable([BACKSLASH], term, hex) by {
        forall buffer: seq<Byte>
          ensures BACKSLASH !in Scan(buffer, 0, false, [], term, hex).text
        {
          BackslashIsNeverRead(buffer, 0, [], hex);
        }
      }
    } else {
      forall s: seq<Unit>
        ensures Readable(s, term, hex)
      {
        EscapeRoundTrip(s, [], term, hex);
      }
    }
  }
}
