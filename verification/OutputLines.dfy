/**
 * `parse_output_lines` of Tools/gtk/common.py: it cuts a stream of chunks into lines.
 */
module OutputLines {

  const NEWLINE: char := '\n'

  function Concat(parts: seq<string>): string {
    if parts == [] then [] else parts[0] + Concat(parts[1..])
  }

  /** The position of the first newline, or the length. */
  function Find(s: string): (pos: nat)
    ensures pos <= |s| && (pos < |s| ==> s[pos] == NEWLINE) && NEWLINE !in s[..pos]
  {
    if s == [] || s[0] == NEWLINE then 0
    else
      var pos := Find(s[1..]) + 1;
      assert s[..pos] == [s[0]] + s[1..][..pos - 1];
      pos
  }

  /** The complete lines of `s`, each with its newline, and what follows the last newline. */
  function Complete(s: string): seq<string> {
    var pos := Find(s);
    if pos == |s| then [] else [s[..pos + 1]] + Complete(s[pos + 1..])
  }

  function Partial(s: string): (r: string)
    ensures |r| <= |s|
  {
    var pos := Find(s);
    if pos == |s| then s else Partial(s[pos + 1..])
  }

  function Lines(s: string): seq<string> {
    Complete(s) + if Partial(s) == [] then [] else [Partial(s)]
  }

  lemma Assoc<T>(a: seq<T>, b: seq<T>, c: seq<T>)
    ensures a + (b + c) == (a + b) + c
  {
  }

  // ---------------------------------------------------------------- what lines are

  ghost predicate IsLine(line: string) {
    line != [] && line[|line| - 1] == '\n' && '\n' !in line[..|line| - 1]
  }

  /** Lines that end in their only newline, except perhaps the last, which is not empty. */
  ghost predicate AreLines(lines: seq<string>) {
    && (forall i :: 0 <= i < |lines| - 1 ==> IsLine(lines[i]))
    && (lines != [] ==> IsLine(lines[|lines| - 1]) || (lines[|lines| - 1] != [] && '\n' !in lines[|lines| - 1]))
  }

  lemma {:induction false} FindAt(s: string, pos: nat)
    requires pos <= |s| && (pos < |s| ==> s[pos] == NEWLINE) && NEWLINE !in s[..pos]
    ensures Find(s) == pos
  {
  }

  lemma {:induction false} LinesOfCons(line: string, rest: string)
    requires IsLine(line)
    ensures Complete(line + rest) == [line] + Complete(rest) && Partial(line + rest) == Partial(rest)
    ensures Lines(line + rest) == [line] + Lines(rest)
  {
    var s, pos := line + rest, |line| - 1;
    assert s[..pos] == line[..pos] && s[pos] == NEWLINE;
    FindAt(s, pos);
    assert s[..pos + 1] == line && s[pos + 1..] == rest;
  }

  lemma CutAt(s: string, pos: nat)
    requires pos < |s| && s[pos] == NEWLINE && NEWLINE !in s[..pos]
    ensures IsLine(s[..pos + 1]) && s[..pos + 1] + s[pos + 1..] == s
  {
    assert s[..pos + 1][..pos] == s[..pos];
  }

  lemma {:induction false} LinesShape(s: string)
    ensures Concat(Complete(s)) + Partial(s) == s && NEWLINE !in Partial(s)
    ensures forall line :: line in Complete(s) ==> IsLine(line)
  {
    var pos := Find(s);
    if pos == |s| {
      assert s[..pos] == s;
    } else {
      var line, tail := s[..pos + 1], s[pos + 1..];
      CutAt(s, pos);
      LinesShape(tail);
      assert ([line] + Complete(tail))[1..] == Complete(tail);
      Assoc(line, Concat(Complete(tail)), Partial(tail));
    }
  }

  lemma {:induction false} ConcatAppend(parts: seq<string>, last: string)
    ensures Concat(parts + [last]) == Concat(parts) + last
  {
    if parts == [] {
      assert parts + [last] == [last] && [last][1..] == [];
    } else {
      assert (parts + [last])[1..] == parts[1..] + [last];
      ConcatAppend(parts[1..], last);
    }
  }

  /** The lines are lines, and together they are the text. */
  lemma LinesAreLines(s: string)
    ensures AreLines(Lines(s)) && Concat(Lines(s)) == s
  {
    LinesShape(s);
    var c, p := Complete(s), Partial(s);
    assert forall i :: 0 <= i < |c| ==> c[i] in c;
    if p == [] {
      assert Lines(s) == c;
    } else {
      ConcatAppend(c, p);
    }
  }

  /** There is only one way to cut a text into lines. */
  lemma {:induction false} LinesAreUnique(lines: seq<string>)
    requires AreLines(lines)
    ensures Lines(Concat(lines)) == lines
  {
    if lines == [] {
      assert Find([]) == 0;
    } else {
      var line, rest := lines[0], lines[1..];
      assert lines == [line] + rest;
      if IsLine(line) {
        assert AreLines(rest) by {
          assert forall i :: 0 <= i < |rest| ==> rest[i] == lines[i + 1];
        }
        LinesAreUnique(rest);
        LinesOfCons(line, Concat(rest));
      } else {
        assert rest == [] && Concat(lines) == line;
        assert line[..|line|] == line;
        FindAt(line, |line|);
      }
    }
  }

  // ---------------------------------------------------------------- the loop

  lemma {:induction false} CompleteAppend(done: seq<string>, s: string)
    requires forall line :: line in done ==> IsLine(line)
    ensures Complete(Concat(done) + s) == done + Complete(s) && Partial(Concat(done) + s) == Partial(s)
  {
    if done == [] {
      assert Concat(done) + s == s && done + Complete(s) == Complete(s);
    } else {
      var rest := Concat(done[1..]) + s;
      CompleteAppend(done[1..], s);
      LinesOfCons(done[0], rest);
      Assoc(done[0], Concat(done[1..]), s);
      Assoc([done[0]], done[1..], Complete(s));
      assert done == [done[0]] + done[1..];
    }
  }

  /** The inner loop: complete lines are delivered, the rest stays in the buffer. */
  method DeliverComplete(text: string, before: seq<string>) returns (delivered: seq<string>, output: string)
    ensures delivered == before + Complete(text) && output == Partial(text)
  {
    delivered, output := before, text;
    while Find(output) < |output|
      invariant delivered + Complete(output) == before + Complete(text) && Partial(output) == Partial(text)
      decreases |output|
    {
      var pos := Find(output);
      ghost var d, o := delivered, output;
      delivered := delivered + [output[..pos + 1]];
      output := output[pos + 1..];
      assert d + ([o[..pos + 1]] + Complete(output)) == d + [o[..pos + 1]] + Complete(output);
    }
    assert delivered + Complete(output) == delivered;
  }

  /**
   * The lines delivered for a stream that is read in non-empty chunks until its end depend only on what the
   * chunks hold together.
   */
  method ParseOutputLines(chunks: seq<string>) returns (delivered: seq<string>)
    requires forall chunk :: chunk in chunks ==> chunk != []
    ensures delivered == Lines(Concat(chunks))
  {
    var output := "";
    delivered := [];
    assert Find([]) == 0 && Concat([]) == [];
    for i := 0 to |chunks|
      invariant delivered == Complete(Concat(chunks[..i])) && output == Partial(Concat(chunks[..i]))
    {
      ghost var text := Concat(chunks[..i]);
      assert chunks[..i + 1] == chunks[..i] + [chunks[i]];
      ConcatAppend(chunks[..i], chunks[i]);
      LinesShape(text);
      CompleteAppend(delivered, output + chunks[i]);
      assert Concat(delivered) + (output + chunks[i]) == text + chunks[i];
      delivered, output := DeliverComplete(output + chunks[i], delivered);
    }
    assert chunks[..|chunks|] == chunks;
    if output != [] {
      delivered := delivered + [output];
    }
  }
}
